/** One critique of an image (core/llm/vision.py:91-129): two responses of the local critic, the gates, and the response
    of a second critic to the checks in doubt. */
module Critique {
  import opened Wrappers
  import opened RepairGeometry
  import opened CheckResults
  import opened CriticResponse
  import opened CriticGates

  /** The second critic's response to the checks it is sent, if its provider answers. */
  type SecondCritic = seq<FidelityCheck> -> Option<Response>

  datatype CritiqueError = BadResponse(error: ParseError) | BoxOverflow(id: string)

  const TWO_64 := 0x1_0000_0000_0000_0000
  const TWO_256 := TWO_64 * TWO_64 * TWO_64 * TWO_64

  /** The smallest integer that is too large for a float, 2 to the 1024 minus 2 to the 970. */
  const FLOAT_LIMIT := TWO_256 * TWO_256 * TWO_256 * TWO_64 * TWO_64 * TWO_64 * 0x400 * 0x3F_FFFF_FFFF_FFFF

  // ----- boxes beyond the range of floats ---------------------------------------------------------

  predicate AreaOverflows(box: Rect, c: Context)
  {
    c.width > 0 && c.height > 0 && Area(box) >= FLOAT_LIMIT
  }

  predicate CenterOverflows(box: Rect, c: Context)
  {
    c.height > 0 && !(-FLOAT_LIMIT < box.y0 + box.y1 < FLOAT_LIMIT)
  }

  /** The gates divide the box's area, and the centre of a small failed box, as floats. */
  predicate GateOverflows(r: CheckResult, c: Context)
  {
    && r.bbox.Some? && !r.verdict.Unverified?
    && (AreaOverflows(r.bbox.value, c)
        || (r.verdict.Fail? && Localized(r, c) && CenterOverflows(r.bbox.value, c)))
  }

  /** Gates every merged result that belongs to a check, unless the box of one of them overflows. */
  method ApplyGates(merged: seq<CheckResult>, checks: seq<FidelityCheck>, c: Context)
    returns (r: Result<seq<CheckResult>, CritiqueError>)
    ensures r.Err? <==>
      exists i | 0 <= i < |merged| :: CheckFor(checks, merged[i].id).Some? && GateOverflows(merged[i], c)
    ensures r.Ok? ==> r.value == Gated(merged, checks, c)
  {
    var gated := [];
    assert merged[0..] == merged;
    for i := 0 to |merged|
      invariant gated + Gated(merged[i..], checks, c) == Gated(merged, checks, c)
      invariant forall j | 0 <= j < i :: CheckFor(checks, merged[j].id).None? || !GateOverflows(merged[j], c)
    {
      assert merged[i..][1..] == merged[i + 1..];
      var check := CheckFor(checks, merged[i].id);
      if check.Some? {
        if GateOverflows(merged[i], c) {
          return Err(BoxOverflow(merged[i].id));
        }
        ConcatAssociates(gated, [Gate(merged[i], check.value, c)], Gated(merged[i + 1..], checks, c));
        gated := gated + [Gate(merged[i], check.value, c)];
      }
    }
    assert merged[|merged|..] == [] && gated + [] == gated;
    return Ok(gated);
  }

  // ----- a whole critique ---------------------------------------------------------------------------

  /** The checks in doubt after both passes, in order: what the second critic is sent. */
  function AskedFrom(a: seq<CheckResult>, b: seq<CheckResult>, checks: seq<FidelityCheck>, c: Context, i: nat)
    : seq<FidelityCheck>
    requires |a| == |b| == |checks| && i <= |checks|
    decreases |checks| - i
  {
    if i == |checks| then []
    else
      var check := CheckFor(checks, checks[i].id);
      var rest := AskedFrom(a, b, checks, c, i + 1);
      if check.Some? && Asked(a[i], b[i], check.value, c) then [check.value] + rest else rest
  }

  function AskedChecks(responseA: Response, responseB: Response, checks: seq<FidelityCheck>, c: Context)
    : seq<FidelityCheck>
    requires !ParseRaises(responseA, checks) && !ParseRaises(responseB, checks)
  {
    AskedFrom(Parsed(responseA, checks), Parsed(responseB, checks), checks, c, 0)
  }

  /** The second critic is sent checks, answers, and parsing its response raises. */
  predicate OpinionRaises(asked: seq<FidelityCheck>, c: Context, second: SecondCritic)
  {
    asked != [] && c.online && second(asked).Some? && ParseRaises(second(asked).value, asked)
  }

  /** The second critic's answer on an id it was asked about. */
  function OpinionOf(id: string, asked: seq<FidelityCheck>, c: Context, second: SecondCritic): Option<CheckResult>
  {
    if c.online && asked != [] && second(asked).Some? && !AnswerRaises(second(asked).value, id)
    then Some(Answer(second(asked).value, id)) else None
  }

  /** The verdicts of the second critic, where parsing its response does not raise. */
  function Opinions(second: SecondCritic): Critic
  {
    (asked: seq<FidelityCheck>) =>
      var response := second(asked);
      if response.None? || ParseRaises(response.value, asked) then None else Some(Parsed(response.value, asked))
  }

  function LocallyGated(responseA: Response, responseB: Response, checks: seq<FidelityCheck>, c: Context)
    : seq<CheckResult>
    requires !ParseRaises(responseA, checks) && !ParseRaises(responseB, checks)
  {
    Gated(Merged(Parsed(responseA, checks), Parsed(responseB, checks), c.space), checks, c)
  }

  /** The box of pass A overflows where a gate needs it. */
  predicate BoxOverflows(a: CheckResult, b: CheckResult, c: Context)
  {
    && a.bbox.Some?
    && (AreaOverflows(a.bbox.value, c)
        || (a.verdict.Fail? && b.verdict.Fail? && Localized(a, c) && CenterOverflows(a.bbox.value, c)))
  }

  /** Parsing some response raises, or pass A has a box that overflows in the gates. */
  ghost predicate CritiqueRaises(responseA: Response, responseB: Response, checks: seq<FidelityCheck>, c: Context,
                                 second: SecondCritic)
  {
    || LocalCritiqueRaises(responseA, responseB, checks, c)
    || OpinionRaises(AskedChecks(responseA, responseB, checks, c), c, second)
  }

  ghost predicate LocalCritiqueRaises(responseA: Response, responseB: Response, checks: seq<FidelityCheck>, c: Context)
  {
    || ParseRaises(responseA, checks)
    || ParseRaises(responseB, checks)
    || (exists i | 0 <= i < |checks| :: BoxOverflows(Parsed(responseA, checks)[i], Parsed(responseB, checks)[i], c))
  }

  /** A critique raises exactly when a decoder does or a number overflows; otherwise there is one verdict for each
      check, in order, decided exactly by the answers of both passes and of the second critic. */
  method CritiqueImage(responseA: Response, responseB: Response, checks: seq<FidelityCheck>, c: Context,
                       second: SecondCritic)
    returns (r: Result<seq<CheckResult>, CritiqueError>)
    ensures r.Err? <==> CritiqueRaises(responseA, responseB, checks, c, second)
    ensures r.Ok? ==> AllDecided(r.value, responseA, responseB, checks, c, second)
  {
    var gated := CritiqueLocally(responseA, responseB, checks, c);
    if gated.Err? {
      return gated;
    }
    SentAreAsked(responseA, responseB, checks, c);
    if !OpinionRaises(AskedChecks(responseA, responseB, checks, c), c, second) {
      ParsedVerdictsAreDecided(responseA, responseB, checks, c, second);
    }
    r := ApplySecondOpinion(gated.value, checks, c, second);
  }

  /** Both passes and the gates on them. */
  method CritiqueLocally(responseA: Response, responseB: Response, checks: seq<FidelityCheck>, c: Context)
    returns (r: Result<seq<CheckResult>, CritiqueError>)
    ensures r.Err? <==> LocalCritiqueRaises(responseA, responseB, checks, c)
    ensures r.Ok? ==> r.value == LocallyGated(responseA, responseB, checks, c)
  {
    var passA := ParseCriticResponse(responseA, checks);
    if passA.Err? {
      return Err(BadResponse(passA.error));
    }
    var passB := ParseCriticResponse(responseB, checks);
    if passB.Err? {
      return Err(BadResponse(passB.error));
    }
    var merged := ApplyTwoPassGate(passA.value, passB.value, c.space);
    MergedOverflowsIff(responseA, responseB, checks, c);
    r := ApplyGates(merged, checks, c);
  }

  method ApplySecondOpinion(gated: seq<CheckResult>, checks: seq<FidelityCheck>, c: Context, second: SecondCritic)
    returns (r: Result<seq<CheckResult>, CritiqueError>)
    ensures r.Err? <==> c.secondOpinion && OpinionRaises(Sent(gated, checks), c, second)
    ensures r.Ok? ==> r.value == SecondOpinionGate(gated, checks, c, Opinions(second))
  {
    SentAreTheChecksInNeed(gated, checks);
    var asked := ChecksOf(Needing(gated, checks), checks);
    if c.secondOpinion && asked != [] && c.online && second(asked).Some? {
      var opinions := ParseCriticResponse(second(asked).value, asked);
      if opinions.Err? {
        return Err(BadResponse(opinions.error));
      }
    }
    return Ok(SecondOpinionGate(gated, checks, c, Opinions(second)));
  }

  // ----- verdicts on parsed responses -------------------------------------------------------------------

  lemma {:induction false} KeptAll(passA: seq<CheckResult>, checks: seq<FidelityCheck>)
    requires forall i | 0 <= i < |passA| :: CheckFor(checks, passA[i].id).Some?
    ensures Kept(passA, checks) == passA
  {
    if passA != [] {
      KeptAll(passA[1..], checks);
    }
  }

  lemma {:induction false} EveryCheckIsFound(checks: seq<FidelityCheck>, i: nat)
    requires i < |checks|
    ensures CheckFor(checks, checks[i].id).Some?
  {
    if i < |checks| - 1 && checks[|checks| - 1].id != checks[i].id {
      EveryCheckIsFound(checks[..|checks| - 1], i);
    }
  }

  lemma {:induction false} TheAnswerIsFound(results: seq<CheckResult>, i: nat)
    requires i < |results| && OneAnswerPerId(results)
    ensures ResultFor(results, results[i].id) == Some(results[i])
  {
    var last := |results| - 1;
    if results[last].id != results[i].id {
      TheAnswerIsFound(results[..last], i);
    }
  }

  /** Both local passes failed the check, with a small box in the region the check is about. */
  predicate BothFailed(a: CheckResult, b: CheckResult, check: FidelityCheck, c: Context)
  {
    && a.verdict.Fail? && b.verdict.Fail?
    && Localized(a, c) && RegionCompatible(check.region, a.bbox.value, c)
  }

  /** A confident, localized pass: some local pass passed the check, or the failure was in the wrong region. */
  predicate SomePassed(a: CheckResult, b: CheckResult, check: FidelityCheck, c: Context)
  {
    && Localized(a, c) && a.confidence >= c.minConfidence
    && (a.passed || b.passed || !RegionCompatible(check.region, a.bbox.value, c))
  }

  /** The second critic is asked about a check. */
  predicate Asked(a: CheckResult, b: CheckResult, check: FidelityCheck, c: Context)
  {
    c.secondOpinion && !BothFailed(a, b, check, c) && (SomePassed(a, b, check, c) ==> check.fineDetail)
  }

  /** What the loop gets for one check, from the answers of both passes and of the second critic. */
  ghost predicate Decided(out: CheckResult, a: CheckResult, b: CheckResult, check: FidelityCheck, c: Context,
                          opinion: Option<CheckResult>)
  {
    && SameSubject(out, a) && Synced(out)
    && (out.verdict.Fail? <==>
          BothFailed(a, b, check, c) || (Asked(a, b, check, c) && opinion.Some? && !opinion.value.passed))
    && (out.verdict.Pass? <==>
          if Asked(a, b, check, c) then opinion.Some? && opinion.value.passed else SomePassed(a, b, check, c))
  }

  /** One verdict for each check, in order, each decided. */
  ghost predicate AllDecided(out: seq<CheckResult>, responseA: Response, responseB: Response,
                             checks: seq<FidelityCheck>, c: Context, second: SecondCritic)
    requires !ParseRaises(responseA, checks) && !ParseRaises(responseB, checks)
  {
    var a, b := Parsed(responseA, checks), Parsed(responseB, checks);
    var asked := AskedChecks(responseA, responseB, checks, c);
    && |out| == |checks|
    && forall i | 0 <= i < |checks| ::
         && out[i].id == checks[i].id && CheckFor(checks, checks[i].id).Some?
         && Decided(out[i], a[i], b[i], CheckFor(checks, checks[i].id).value, c,
                    OpinionOf(checks[i].id, asked, c, second))
  }

  lemma ParsedLocally(responseA: Response, responseB: Response, checks: seq<FidelityCheck>, c: Context, i: nat)
    requires !ParseRaises(responseA, checks) && !ParseRaises(responseB, checks) && i < |checks|
    ensures var a, b := Parsed(responseA, checks), Parsed(responseB, checks);
      var check := CheckFor(checks, checks[i].id);
      && check.Some?
      && LocalFail(a[i], b, check.value, c) == BothFailed(a[i], b[i], check.value, c)
      && LocalPass(a[i], b, check.value, c) == SomePassed(a[i], b[i], check.value, c)
  {
    ParsedIsOneAnswerPerCheck(responseA, checks);
    ParsedIsOneAnswerPerCheck(responseB, checks);
    EveryCheckIsFound(checks, i);
    var a, b := Parsed(responseA, checks), Parsed(responseB, checks);
    TheAnswerIsFound(b, i);
    assert a[i] in a && b[i] in b;
  }

  lemma ParsedIsTargetedIff(responseA: Response, responseB: Response, checks: seq<FidelityCheck>, c: Context, i: nat)
    requires !ParseRaises(responseA, checks) && !ParseRaises(responseB, checks) && i < |checks|
    ensures var a, b := Parsed(responseA, checks), Parsed(responseB, checks);
      Targeted(checks[i].id, LocallyGated(responseA, responseB, checks, c), checks, c)
      <==> CheckFor(checks, checks[i].id).Some? && Asked(a[i], b[i], CheckFor(checks, checks[i].id).value, c)
  {
    var a, b := Parsed(responseA, checks), Parsed(responseB, checks);
    ParsedIsOneAnswerPerCheck(responseA, checks);
    ParsedIsOneAnswerPerCheck(responseB, checks);
    KeptParsed(responseA, checks);
    ParsedLocally(responseA, responseB, checks, c, i);
    TargetedIff(a, b, checks, c, checks[i].id);
    assert Kept(a, checks)[i].id == checks[i].id;
  }

  lemma KeptParsed(response: Response, checks: seq<FidelityCheck>)
    requires !ParseRaises(response, checks)
    ensures Kept(Parsed(response, checks), checks) == Parsed(response, checks)
  {
    ParsedIsOneAnswerPerCheck(response, checks);
    forall i | 0 <= i < |checks| ensures CheckFor(checks, checks[i].id).Some? {
      EveryCheckIsFound(checks, i);
    }
    KeptAll(Parsed(response, checks), checks);
  }

  /** The second critic is sent exactly the checks in doubt. */
  lemma SentAreAsked(responseA: Response, responseB: Response, checks: seq<FidelityCheck>, c: Context)
    requires !ParseRaises(responseA, checks) && !ParseRaises(responseB, checks)
    ensures var gated := LocallyGated(responseA, responseB, checks, c);
      var asked := AskedChecks(responseA, responseB, checks, c);
      && |gated| == |checks|
      && (c.secondOpinion ==> Sent(gated, checks) == asked)
      && (!c.secondOpinion ==> asked == [])
  {
    var a, b := Parsed(responseA, checks), Parsed(responseB, checks);
    var gated := LocallyGated(responseA, responseB, checks, c);
    ParsedIsOneAnswerPerCheck(responseA, checks);
    ParsedIsOneAnswerPerCheck(responseB, checks);
    KeptParsed(responseA, checks);
    GatedIsPointwise(a, b, checks, c);
    forall i | 0 <= i < |checks|
      ensures gated[i].id == checks[i].id && CheckFor(checks, checks[i].id).Some?
      ensures c.secondOpinion ==>
        (NeedsOpinion(gated[i], checks) <==> Asked(a[i], b[i], CheckFor(checks, checks[i].id).value, c))
    {
      ParsedLocally(responseA, responseB, checks, c, i);
      NeedsOpinionIffInDoubt(gated[i], a[i], b, checks, c);
    }
    assert gated[0..] == gated;
    SentFromIsAskedFrom(gated, a, b, checks, c, 0);
  }

  lemma {:induction false} SentFromIsAskedFrom(
      gated: seq<CheckResult>, a: seq<CheckResult>, b: seq<CheckResult>, checks: seq<FidelityCheck>, c: Context, i: nat)
    requires |gated| == |a| == |b| == |checks| && i <= |checks|
    requires forall j | 0 <= j < |checks| ::
      && gated[j].id == checks[j].id && CheckFor(checks, checks[j].id).Some?
      && (c.secondOpinion ==>
            (NeedsOpinion(gated[j], checks) <==> Asked(a[j], b[j], CheckFor(checks, checks[j].id).value, c)))
    ensures c.secondOpinion ==> Sent(gated[i..], checks) == AskedFrom(a, b, checks, c, i)
    ensures !c.secondOpinion ==> AskedFrom(a, b, checks, c, i) == []
    decreases |checks| - i
  {
    if i < |checks| {
      assert gated[i..][1..] == gated[i + 1..];
      SentFromIsAskedFrom(gated, a, b, checks, c, i + 1);
    }
  }

  lemma {:induction false} CheckForHasTheId(checks: seq<FidelityCheck>, id: string)
    requires CheckFor(checks, id).Some?
    ensures CheckFor(checks, id).value.id == id
  {
    if checks[|checks| - 1].id != id {
      CheckForHasTheId(checks[..|checks| - 1], id);
    }
  }

  lemma {:induction false} AskedIsAmong(
      a: seq<CheckResult>, b: seq<CheckResult>, checks: seq<FidelityCheck>, c: Context, i: nat, k: nat) returns (j: nat)
    requires |a| == |b| == |checks| && i <= k < |checks| && CheckFor(checks, checks[k].id).Some?
    requires Asked(a[k], b[k], CheckFor(checks, checks[k].id).value, c)
    ensures j < |AskedFrom(a, b, checks, c, i)| && AskedFrom(a, b, checks, c, i)[j].id == checks[k].id
    decreases k - i
  {
    if i == k {
      CheckForHasTheId(checks, checks[k].id);
      return 0;
    }
    j := AskedIsAmong(a, b, checks, c, i + 1, k);
    var check := CheckFor(checks, checks[i].id);
    if check.Some? && Asked(a[i], b[i], check.value, c) {
      j := j + 1;
    }
  }

  /** The opinion on a check that was asked about is the second critic's answer. */
  lemma OpinionIsTheAnswer(asked: seq<FidelityCheck>, j: nat, c: Context, second: SecondCritic)
    requires j < |asked| && !OpinionRaises(asked, c, second)
    ensures Opinion(asked[j].id, asked, c, Opinions(second)) == OpinionOf(asked[j].id, asked, c, second)
  {
    if c.online && second(asked).Some? {
      var response := second(asked).value;
      ParsedIsOneAnswerPerCheck(response, asked);
      TheAnswerIsFound(Parsed(response, asked), j);
      assert Parsed(response, asked)[j] == Answer(response, asked[j].id);
    }
  }

  /** For any responses that parse there is one verdict per check, in order; a check both passes failed with a small
      box in the right region fails whatever the second critic says, and every other verdict is decided exactly, by
      the second critic's answer where it was asked. No assumption on the ids of the checks is needed. */
  lemma ParsedVerdictsAreDecided(responseA: Response, responseB: Response, checks: seq<FidelityCheck>,
                                 c: Context, second: SecondCritic)
    requires !ParseRaises(responseA, checks) && !ParseRaises(responseB, checks)
    requires !OpinionRaises(AskedChecks(responseA, responseB, checks, c), c, second)
    ensures AllDecided(SecondOpinionGate(LocallyGated(responseA, responseB, checks, c), checks, c, Opinions(second)),
                       responseA, responseB, checks, c, second)
  {
    var a, b := Parsed(responseA, checks), Parsed(responseB, checks);
    ParsedIsOneAnswerPerCheck(responseA, checks);
    ParsedIsOneAnswerPerCheck(responseB, checks);
    KeptParsed(responseA, checks);
    EveryVerdictIsDecided(a, b, checks, c, Opinions(second));
    SentAreAsked(responseA, responseB, checks, c);
    var out := SecondOpinionGate(LocallyGated(responseA, responseB, checks, c), checks, c, Opinions(second));
    var asked := AskedChecks(responseA, responseB, checks, c);
    forall i | 0 <= i < |checks|
      ensures out[i].id == checks[i].id && CheckFor(checks, checks[i].id).Some?
      ensures Decided(out[i], a[i], b[i], CheckFor(checks, checks[i].id).value, c,
                      OpinionOf(checks[i].id, asked, c, second))
    {
      ParsedLocally(responseA, responseB, checks, c, i);
      ParsedIsTargetedIff(responseA, responseB, checks, c, i);
      if Asked(a[i], b[i], CheckFor(checks, checks[i].id).value, c) {
        var j := AskedIsAmong(a, b, checks, c, 0, i);
        OpinionIsTheAnswer(asked, j, c, second);
      }
    }
  }

  lemma MergedOverflowsIff(responseA: Response, responseB: Response, checks: seq<FidelityCheck>, c: Context)
    requires !ParseRaises(responseA, checks) && !ParseRaises(responseB, checks)
    ensures var a, b := Parsed(responseA, checks), Parsed(responseB, checks);
      var merged := Merged(a, b, c.space);
      && |merged| == |checks|
      && forall i | 0 <= i < |checks| ::
           && CheckFor(checks, merged[i].id).Some?
           && (GateOverflows(merged[i], c) <==> BoxOverflows(a[i], b[i], c))
  {
    var a, b := Parsed(responseA, checks), Parsed(responseB, checks);
    ParsedIsOneAnswerPerCheck(responseA, checks);
    ParsedIsOneAnswerPerCheck(responseB, checks);
    var merged := Merged(a, b, c.space);
    forall i | 0 <= i < |checks|
      ensures CheckFor(checks, merged[i].id).Some?
      ensures GateOverflows(merged[i], c) <==> BoxOverflows(a[i], b[i], c)
    {
      EveryCheckIsFound(checks, i);
      TheAnswerIsFound(b, i);
      assert a[i] in a && b[i] in b;
      OverflowSurvivesTheMerge(a[i], b[i], c);
    }
  }

  lemma OverflowSurvivesTheMerge(a: CheckResult, b: CheckResult, c: Context)
    requires Synced(a) && Synced(b) && !a.verdict.Unverified? && !b.verdict.Unverified?
    ensures GateOverflows(MergeOne(a, Some(b), c.space), c) <==> BoxOverflows(a, b, c)
  {
    var merged := MergeOne(a, Some(b), c.space);
    assert merged.bbox == a.bbox && (merged.verdict.Fail? <==> a.verdict.Fail? && b.verdict.Fail?);
    assert Localized(merged, c) <==> Localized(a, c);
  }
}
