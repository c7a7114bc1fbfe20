/** The gates between a vision critic's answers and the verdicts the refine loop acts on (core/llm/vision.py:165-447).
    The critics themselves are arbitrary. */
module CriticGates {
  import opened Wrappers
  import opened RepairGeometry
  import opened CheckResults
  import opened CriticResponse
  import TagText

  type Spaces = TagText.Spaces

  /** The image, the settings the gates read, and which characters count as white space. */
  datatype Context = Context(
    width: int,
    height: int,
    minConfidence: real,
    secondOpinion: bool,
    online: bool,
    space: Spaces)

  /** A second critic: the checks it is sent, and its verdicts if it answers at all. */
  type Critic = seq<FidelityCheck> -> Option<seq<CheckResult>>

  const MAX_AREA_FRACTION: real := 0.6

  // ----- look-up by id, later entries winning as in a dictionary --------------------------------

  function ResultFor(results: seq<CheckResult>, id: string): Option<CheckResult>
  {
    if results == [] then None
    else if results[|results| - 1].id == id then Some(results[|results| - 1])
    else ResultFor(results[..|results| - 1], id)
  }

  function CheckFor(checks: seq<FidelityCheck>, id: string): Option<FidelityCheck>
  {
    if checks == [] then None
    else if checks[|checks| - 1].id == id then Some(checks[|checks| - 1])
    else CheckFor(checks[..|checks| - 1], id)
  }

  /** The last result with the id, none exactly if there is none. */
  lemma {:induction false} ResultForIsTheLast(results: seq<CheckResult>, id: string)
    ensures ResultFor(results, id).None? <==> forall i | 0 <= i < |results| :: results[i].id != id
    ensures ResultFor(results, id).Some? ==> exists i | 0 <= i < |results| ::
      ResultFor(results, id).value == results[i] && results[i].id == id
      && forall j | i < j < |results| :: results[j].id != id
  {
    if results != [] && results[|results| - 1].id != id {
      ResultForIsTheLast(results[..|results| - 1], id);
    }
  }

  /** The last check with the id, none exactly if there is none. */
  lemma {:induction false} CheckForIsTheLast(checks: seq<FidelityCheck>, id: string)
    ensures CheckFor(checks, id).None? <==> forall i | 0 <= i < |checks| :: checks[i].id != id
    ensures CheckFor(checks, id).Some? ==> exists i | 0 <= i < |checks| ::
      CheckFor(checks, id).value == checks[i] && checks[i].id == id && forall j | i < j < |checks| :: checks[j].id != id
  {
    if checks != [] && checks[|checks| - 1].id != id {
      CheckForIsTheLast(checks[..|checks| - 1], id);
    }
  }

  // ----- the two passes of the local critic -----------------------------------------------------

  function Annotated(r: CheckResult, verdict: Verdict, tag: string, space: Spaces): CheckResult
  {
    r.(verdict := verdict, passed := verdict.Pass?, note := TagText.Strip(r.note + " [gate: " + tag + "]", space))
  }

  function MergeOne(a: CheckResult, b: Option<CheckResult>, space: Spaces): CheckResult
  {
    if b.None? || a.passed == b.value.passed then a
    else Annotated(a, Pass, "two-pass disagreement", space)
  }

  function Merged(passA: seq<CheckResult>, passB: seq<CheckResult>, space: Spaces): seq<CheckResult>
  {
    seq(|passA|, i requires 0 <= i < |passA| => MergeOne(passA[i], ResultFor(passB, passA[i].id), space))
  }

  method IndexById(results: seq<CheckResult>) returns (byId: map<string, CheckResult>)
    ensures forall id :: id in byId <==> ResultFor(results, id).Some?
    ensures forall id | id in byId :: ResultFor(results, id) == Some(byId[id])
  {
    byId := map[];
    for i := 0 to |results|
      invariant forall id :: id in byId <==> ResultFor(results[..i], id).Some?
      invariant forall id | id in byId :: ResultFor(results[..i], id) == Some(byId[id])
    {
      assert results[..i + 1][..i] == results[..i];
      byId := byId[results[i].id := results[i]];
    }
    assert results[..|results|] == results;
  }

  method ApplyTwoPassGate(passA: seq<CheckResult>, passB: seq<CheckResult>, space: Spaces)
    returns (merged: seq<CheckResult>)
    ensures merged == Merged(passA, passB, space)
  {
    var byIdB := IndexById(passB);
    merged := [];
    for i := 0 to |passA|
      invariant merged == Merged(passA, passB, space)[..i]
    {
      var a := passA[i];
      if a.id !in byIdB {
        merged := merged + [a];
      } else {
        var b := byIdB[a.id];
        if a.passed || b.passed {
          if !(a.passed && b.passed) {
            merged := merged + [Annotated(a, Pass, "two-pass disagreement", space)];
          } else {
            merged := merged + [a];
          }
        } else {
          merged := merged + [a];
        }
      }
    }
  }

  // ----- gates on one merged result ----------------------------------------------------------------

  function AreaFraction(bbox: Rect, c: Context): real
  {
    if c.width <= 0 || c.height <= 0 then 0.0
    else Area(bbox) as real / (c.width * c.height) as real
  }

  function Band(region: BodyRegion): (real, real)
  {
    match region
    case Head => (0.0, 0.35)
    case Face => (0.0, 0.35)
    case Torso => (0.2, 0.65)
    case Waist => (0.45, 0.75)
    case Legs => (0.6, 1.0)
    case Background => (0.0, 1.0)
  }

  function CenterFractionY(bbox: Rect, c: Context): real
  {
    if c.height <= 0 then 0.0 else (bbox.y0 + bbox.y1) as real / 2.0 / c.height as real
  }

  predicate RegionCompatible(region: BodyRegion, bbox: Rect, c: Context)
  {
    Band(region).0 <= CenterFractionY(bbox, c) <= Band(region).1
  }

  function FailSideGates(r: CheckResult, region: BodyRegion, c: Context): CheckResult
  {
    if !r.verdict.Fail? then r
    else if r.bbox.None? then Annotated(r, Pass, "unlocalized", c.space)
    else if AreaFraction(r.bbox.value, c) > MAX_AREA_FRACTION then Annotated(r, Pass, "bbox too large", c.space)
    else if !RegionCompatible(region, r.bbox.value, c) then Annotated(r, Pass, "region mismatch", c.space)
    else r
  }

  function LocalizedPassGate(r: CheckResult, c: Context): CheckResult
  {
    if !r.verdict.Pass? then r
    else if r.bbox.None? then Annotated(r, Unverified, "unlocalized pass", c.space)
    else if AreaFraction(r.bbox.value, c) > MAX_AREA_FRACTION then
      Annotated(r, Unverified, "bbox too large pass", c.space)
    else if r.confidence < c.minConfidence then Annotated(r, Unverified, "low confidence", c.space)
    else r
  }

  function Gate(r: CheckResult, check: FidelityCheck, c: Context): CheckResult
  {
    LocalizedPassGate(FailSideGates(r, check.region, c), c)
  }

  /** Gate every merged result whose id belongs to a check; drop the others. */
  function Gated(merged: seq<CheckResult>, checks: seq<FidelityCheck>, c: Context): seq<CheckResult>
  {
    if merged == [] then []
    else
      var check := CheckFor(checks, merged[0].id);
      var rest := Gated(merged[1..], checks, c);
      if check.Some? then [Gate(merged[0], check.value, c)] + rest else rest
  }

  // ----- the second opinion --------------------------------------------------------------------------

  predicate NeedsOpinion(r: CheckResult, checks: seq<FidelityCheck>)
  {
    || r.verdict.Unverified?
    || (r.verdict.Pass? && CheckFor(checks, r.id).Some? && CheckFor(checks, r.id).value.fineDetail)
  }

  function Needing(results: seq<CheckResult>, checks: seq<FidelityCheck>): seq<CheckResult>
  {
    if results == [] then []
    else
      var rest := Needing(results[1..], checks);
      if NeedsOpinion(results[0], checks) then [results[0]] + rest else rest
  }

  function Ids(results: seq<CheckResult>): set<string>
  {
    set r | r in results :: r.id
  }

  function ChecksOf(results: seq<CheckResult>, checks: seq<FidelityCheck>): seq<FidelityCheck>
  {
    if results == [] then []
    else
      var check := CheckFor(checks, results[0].id);
      var rest := ChecksOf(results[1..], checks);
      if check.Some? then [check.value] + rest else rest
  }

  function CallSecondOpinion(asked: seq<FidelityCheck>, c: Context, critic: Critic): Option<seq<CheckResult>>
  {
    if asked == [] || !c.online then None else critic(asked)
  }

  function MarkUnverifiedNoOpinion(r: CheckResult, c: Context): CheckResult
  {
    if r.verdict.Unverified? then r else Annotated(r, Unverified, "second opinion unavailable", c.space)
  }

  function Reconcile(r: CheckResult, opinion: Option<CheckResult>, c: Context): CheckResult
  {
    if opinion.None? then MarkUnverifiedNoOpinion(r, c)
    else if opinion.value.passed then Annotated(r, Pass, "second opinion agrees", c.space)
    else r.(verdict := Fail, passed := false,
            note := TagText.Strip("local: " + r.note + " | second opinion: " + opinion.value.note,
                                  ch => ch == ' ' || ch == '|'))
  }

  /** What the second critic is asked, and its answer. */
  function Answers(results: seq<CheckResult>, checks: seq<FidelityCheck>, c: Context, critic: Critic)
    : Option<seq<CheckResult>>
  {
    CallSecondOpinion(ChecksOf(Needing(results, checks), checks), c, critic)
  }

  function SecondOpinionGate(results: seq<CheckResult>, checks: seq<FidelityCheck>, c: Context, critic: Critic)
    : seq<CheckResult>
  {
    var needing := Needing(results, checks);
    if !c.secondOpinion || needing == [] then results
    else
      var ids := Ids(needing);
      var answers := Answers(results, checks, c, critic);
      if answers.None? then
        seq(|results|, i requires 0 <= i < |results| =>
          if results[i].id in ids then MarkUnverifiedNoOpinion(results[i], c) else results[i])
      else
        seq(|results|, i requires 0 <= i < |results| =>
          if results[i].id in ids then Reconcile(results[i], ResultFor(answers.value, results[i].id), c)
          else results[i])
  }

  // ----- what a verdict means --------------------------------------------------------------------------

  /** Results of the first pass that belong to a check, in order. */
  function Kept(passA: seq<CheckResult>, checks: seq<FidelityCheck>): (kept: seq<CheckResult>)
    ensures forall r | r in kept :: r in passA && CheckFor(checks, r.id).Some?
  {
    if passA == [] then []
    else if CheckFor(checks, passA[0].id).Some? then [passA[0]] + Kept(passA[1..], checks)
    else Kept(passA[1..], checks)
  }

  predicate OtherPassPassed(passB: seq<CheckResult>, id: string)
  {
    ResultFor(passB, id).Some? && ResultFor(passB, id).value.passed
  }

  /** The box is there and covers at most 60% of the image. */
  predicate Localized(a: CheckResult, c: Context)
  {
    a.bbox.Some? && AreaFraction(a.bbox.value, c) <= MAX_AREA_FRACTION
  }

  /** Pass A failed the check, with a small box in the region the check is about, and pass B did not pass it. */
  predicate LocalFail(a: CheckResult, passB: seq<CheckResult>, check: FidelityCheck, c: Context)
  {
    && a.verdict.Fail?
    && !OtherPassPassed(passB, a.id)
    && Localized(a, c)
    && RegionCompatible(check.region, a.bbox.value, c)
  }

  /** A confident, localized pass: either local pass passed the check, or its failure was in the wrong region. */
  predicate LocalPass(a: CheckResult, passB: seq<CheckResult>, check: FidelityCheck, c: Context)
  {
    && Localized(a, c)
    && a.confidence >= c.minConfidence
    && (a.passed || OtherPassPassed(passB, a.id)
        || (a.verdict.Fail? && !RegionCompatible(check.region, a.bbox.value, c)))
  }

  lemma ShareIff(part: int, whole: int, num: int, den: int)
    requires whole > 0 && den > 0
    ensures part as real / whole as real <= num as real / den as real <==> den * part <= num * whole
  {
    var q := part as real / whole as real;
    assert q * whole as real == part as real;
    assert num as real / den as real * den as real == num as real;
    ProductOrder(q, num as real / den as real, whole as real * den as real);
    assert q * (whole as real * den as real) == part as real * den as real;
    assert num as real / den as real * (whole as real * den as real) == num as real * whole as real;
  }

  lemma ProductOrder(a: real, b: real, c: real)
    requires c > 0.0
    ensures a <= b <==> a * c <= b * c
  {
    if a <= b {
      assert (b - a) * c >= 0.0;
    } else {
      assert (a - b) * c > 0.0;
    }
  }

  /** A box is small exactly if ten times its area is at most six times that of the image, whatever its place; no box is
      too large for an image without pixels. */
  lemma LocalizedIff(a: CheckResult, c: Context)
    ensures Localized(a, c) <==>
      a.bbox.Some? && (c.width > 0 && c.height > 0 ==> 10 * Area(a.bbox.value) <= 6 * (c.width * c.height))
  {
    if a.bbox.Some? && c.width > 0 && c.height > 0 {
      ShareIff(Area(a.bbox.value), c.width * c.height, 6, 10);
    }
  }

  lemma CenterBound(box: Rect, c: Context, percent: int)
    requires c.height > 0
    ensures var share := percent as real / 100.0;
      && (CenterFractionY(box, c) <= share <==> 100 * (box.y0 + box.y1) <= 2 * percent * c.height)
      && (share <= CenterFractionY(box, c) <==> 2 * percent * c.height <= 100 * (box.y0 + box.y1))
  {
    var center, share, h := CenterFractionY(box, c), percent as real / 100.0, c.height as real;
    assert center * h == (box.y0 + box.y1) as real / 2.0;
    assert share * h * 100.0 == percent as real * h == (percent * c.height) as real;
    ProductOrder(center, share, h);
    ProductOrder(share, center, h);
  }

  /** The vertical centre of the box, in hundredths of the height, lies in the band of the region: head and face 0 to
      35, torso 20 to 65, waist 45 to 75, legs 60 to 100, background 0 to 100. */
  lemma RegionBands(region: BodyRegion, box: Rect, c: Context)
    requires c.height > 0
    ensures var twice := 100 * (box.y0 + box.y1);
      RegionCompatible(region, box, c) <==>
        match region
        case Head => 0 <= twice <= 70 * c.height
        case Face => 0 <= twice <= 70 * c.height
        case Torso => 40 * c.height <= twice <= 130 * c.height
        case Waist => 90 * c.height <= twice <= 150 * c.height
        case Legs => 120 * c.height <= twice <= 200 * c.height
        case Background => 0 <= twice <= 200 * c.height
  {
    CenterBound(box, c, 0);
    CenterBound(box, c, 20);
    CenterBound(box, c, 35);
    CenterBound(box, c, 45);
    CenterBound(box, c, 60);
    CenterBound(box, c, 65);
    CenterBound(box, c, 75);
    CenterBound(box, c, 100);
  }

  /** In an image without rows only the bands that start at the top are met. */
  lemma RegionBandsOfNoRows(region: BodyRegion, box: Rect, c: Context)
    requires c.height <= 0
    ensures RegionCompatible(region, box, c) <==> region.Head? || region.Face? || region.Background?
  {
  }

  ghost predicate SameSubject(r: CheckResult, a: CheckResult)
  {
    r.id == a.id && r.bbox == a.bbox && r.confidence == a.confidence
  }

  /** The verdict after the local gates, in terms of the raw answers. */
  ghost predicate LocallyDecided(r: CheckResult, a: CheckResult, passB: seq<CheckResult>, check: FidelityCheck,
                                 c: Context)
  {
    && SameSubject(r, a) && Synced(r)
    && (r.verdict.Fail? <==> LocalFail(a, passB, check, c))
    && (r.verdict.Pass? <==> LocalPass(a, passB, check, c))
  }

  lemma LocalGatesDecide(a: CheckResult, passB: seq<CheckResult>, check: FidelityCheck, c: Context)
    requires Synced(a) && AllSynced(passB)
    ensures LocallyDecided(Gate(MergeOne(a, ResultFor(passB, a.id), c.space), check, c), a, passB, check, c)
  {
    var m := MergeOne(a, ResultFor(passB, a.id), c.space);
    assert m.verdict == if OtherPassPassed(passB, a.id) then Pass
                        else if ResultFor(passB, a.id).Some? && a.passed then Pass
                        else a.verdict;
  }

  lemma {:induction false} GatedIsPointwise(passA: seq<CheckResult>, passB: seq<CheckResult>,
                                            checks: seq<FidelityCheck>, c: Context)
    requires AllSynced(passA) && AllSynced(passB)
    ensures var kept := Kept(passA, checks);
      var gated := Gated(Merged(passA, passB, c.space), checks, c);
      && |gated| == |kept|
      && forall i | 0 <= i < |kept| ::
           LocallyDecided(gated[i], kept[i], passB, CheckFor(checks, kept[i].id).value, c)
  {
    if passA != [] {
      var a, rest := passA[0], passA[1..];
      assert forall r | r in rest :: r in passA;
      GatedIsPointwise(rest, passB, checks, c);
      assert Merged(passA, passB, c.space)[1..] == Merged(rest, passB, c.space);
      assert a in passA;
      if CheckFor(checks, a.id).Some? {
        LocalGatesDecide(a, passB, CheckFor(checks, a.id).value, c);
        var kept := Kept(rest, checks);
        var gated := Gated(Merged(rest, passB, c.space), checks, c);
        assert Kept(passA, checks) == [a] + kept;
        var first := Gate(MergeOne(a, ResultFor(passB, a.id), c.space), CheckFor(checks, a.id).value, c);
        assert Gated(Merged(passA, passB, c.space), checks, c) == [first] + gated;
        forall i | 0 <= i < |kept| + 1
          ensures LocallyDecided(([first] + gated)[i], ([a] + kept)[i], passB,
                                 CheckFor(checks, ([a] + kept)[i].id).value, c)
        {
          if i > 0 {
            assert ([first] + gated)[i] == gated[i - 1] && ([a] + kept)[i] == kept[i - 1];
          }
        }
      }
    }
  }

  /** Some result with this id is sent to the second critic. */
  ghost predicate Targeted(id: string, gated: seq<CheckResult>, checks: seq<FidelityCheck>, c: Context)
  {
    c.secondOpinion && exists r | r in gated :: r.id == id && NeedsOpinion(r, checks)
  }

  lemma {:induction false} NeedingAreThoseInNeed(results: seq<CheckResult>, checks: seq<FidelityCheck>)
    ensures forall r :: r in Needing(results, checks) <==> r in results && NeedsOpinion(r, checks)
  {
    if results != [] {
      NeedingAreThoseInNeed(results[1..], checks);
      assert results == [results[0]] + results[1..];
    }
  }

  /** The checks of the results that need an opinion, in order. */
  function Sent(results: seq<CheckResult>, checks: seq<FidelityCheck>): seq<FidelityCheck>
  {
    if results == [] then []
    else
      var check := CheckFor(checks, results[0].id);
      var rest := Sent(results[1..], checks);
      if NeedsOpinion(results[0], checks) && check.Some? then [check.value] + rest else rest
  }

  /** What the second critic says of an id when it is online, is sent something and answers. */
  function Opinion(id: string, sent: seq<FidelityCheck>, c: Context, critic: Critic): Option<CheckResult>
  {
    if c.online && sent != [] && critic(sent).Some? then ResultFor(critic(sent).value, id) else None
  }

  lemma {:induction false} SentAreTheChecksInNeed(results: seq<CheckResult>, checks: seq<FidelityCheck>)
    ensures ChecksOf(Needing(results, checks), checks) == Sent(results, checks)
  {
    if results != [] {
      SentAreTheChecksInNeed(results[1..], checks);
      if NeedsOpinion(results[0], checks) {
        assert Needing(results, checks)[1..] == Needing(results[1..], checks);
      }
    }
  }

  lemma AnswersAreToTheSentChecks(id: string, gated: seq<CheckResult>, checks: seq<FidelityCheck>, c: Context,
                                  critic: Critic)
    ensures OpinionOn(id, Answers(gated, checks, c, critic)) == Opinion(id, Sent(gated, checks), c, critic)
  {
    SentAreTheChecksInNeed(gated, checks);
  }

  function OpinionOn(id: string, answers: Option<seq<CheckResult>>): Option<CheckResult>
  {
    if answers.None? then None else ResultFor(answers.value, id)
  }

  /** The verdict the loop sees, in terms of the verdict of the local gates and of the second critic. */
  ghost predicate FinallyDecided(out: CheckResult, g: CheckResult, targeted: bool, opinion: Option<CheckResult>)
  {
    && SameSubject(out, g)
    && (Synced(g) ==> Synced(out))
    && (!targeted ==> out == g)
    && (targeted ==>
          && (out.verdict.Pass? <==> opinion.Some? && opinion.value.passed)
          && (out.verdict.Fail? <==> opinion.Some? && !opinion.value.passed))
  }

  lemma SecondOpinionDecides(gated: seq<CheckResult>, checks: seq<FidelityCheck>, c: Context, critic: Critic)
    ensures var out := SecondOpinionGate(gated, checks, c, critic);
      && |out| == |gated|
      && forall i | 0 <= i < |out| ::
           FinallyDecided(out[i], gated[i], Targeted(gated[i].id, gated, checks, c),
                          Opinion(gated[i].id, Sent(gated, checks), c, critic))
  {
    NeedingAreThoseInNeed(gated, checks);
    var needing := Needing(gated, checks);
    var out := SecondOpinionGate(gated, checks, c, critic);
    forall i | 0 <= i < |out|
      ensures FinallyDecided(out[i], gated[i], Targeted(gated[i].id, gated, checks, c),
                             Opinion(gated[i].id, Sent(gated, checks), c, critic))
    {
      AnswersAreToTheSentChecks(gated[i].id, gated, checks, c, critic);
      if c.secondOpinion {
        assert gated[i].id in Ids(needing) <==> Targeted(gated[i].id, gated, checks, c);
      }
    }
  }

  /** Through all five gates ids and order are kept, passed stays "the verdict is pass", and every final verdict is
      decided exactly: by the second critic when the id was sent to it, by both local passes otherwise. */
  lemma EveryVerdictIsDecided(passA: seq<CheckResult>, passB: seq<CheckResult>, checks: seq<FidelityCheck>,
                              c: Context, critic: Critic)
    requires AllSynced(passA) && AllSynced(passB)
    ensures var kept := Kept(passA, checks);
      var gated := Gated(Merged(passA, passB, c.space), checks, c);
      var out := SecondOpinionGate(gated, checks, c, critic);
      && |out| == |kept|
      && forall i | 0 <= i < |out| ::
           var check := CheckFor(checks, kept[i].id).value;
           var opinion := Opinion(kept[i].id, Sent(gated, checks), c, critic);
           var targeted := Targeted(kept[i].id, gated, checks, c);
           && SameSubject(out[i], kept[i]) && Synced(out[i])
           && (out[i].verdict.Fail? <==>
                 if targeted then opinion.Some? && !opinion.value.passed else LocalFail(kept[i], passB, check, c))
           && (out[i].verdict.Pass? <==>
                 if targeted then opinion.Some? && opinion.value.passed else LocalPass(kept[i], passB, check, c))
  {
    GatedIsPointwise(passA, passB, checks, c);
    SecondOpinionDecides(Gated(Merged(passA, passB, c.space), checks, c), checks, c, critic);
  }

  /** Neither confidently failed nor confidently passed by the local critic, or a passed fine detail. */
  predicate InDoubt(a: CheckResult, passB: seq<CheckResult>, check: FidelityCheck, c: Context)
  {
    !LocalFail(a, passB, check, c) && (LocalPass(a, passB, check, c) ==> check.fineDetail)
  }

  lemma NeedsOpinionIffInDoubt(g: CheckResult, a: CheckResult, passB: seq<CheckResult>,
                               checks: seq<FidelityCheck>, c: Context)
    requires CheckFor(checks, a.id).Some?
    requires LocallyDecided(g, a, passB, CheckFor(checks, a.id).value, c)
    ensures NeedsOpinion(g, checks) <==> InDoubt(a, passB, CheckFor(checks, a.id).value, c)
  {
  }

  /** An id is sent to the second critic exactly when the local answer for it, or for a result repeating the id,
      is in doubt. */
  lemma TargetedIff(passA: seq<CheckResult>, passB: seq<CheckResult>, checks: seq<FidelityCheck>, c: Context,
                    id: string)
    requires AllSynced(passA) && AllSynced(passB)
    ensures var kept := Kept(passA, checks);
      Targeted(id, Gated(Merged(passA, passB, c.space), checks, c), checks, c)
      <==> c.secondOpinion && exists j | 0 <= j < |kept| ::
             kept[j].id == id && InDoubt(kept[j], passB, CheckFor(checks, id).value, c)
  {
    GatedIsPointwise(passA, passB, checks, c);
    var kept := Kept(passA, checks);
    var gated := Gated(Merged(passA, passB, c.space), checks, c);
    forall j | 0 <= j < |kept|
      ensures gated[j].id == kept[j].id
      ensures NeedsOpinion(gated[j], checks) <==> InDoubt(kept[j], passB, CheckFor(checks, kept[j].id).value, c)
    {
      NeedsOpinionIffInDoubt(gated[j], kept[j], passB, checks, c);
    }
    TargetedByIndex(id, gated, checks, c);
  }

  lemma TargetedByIndex(id: string, gated: seq<CheckResult>, checks: seq<FidelityCheck>, c: Context)
    ensures Targeted(id, gated, checks, c)
       <==> c.secondOpinion && exists j | 0 <= j < |gated| :: gated[j].id == id && NeedsOpinion(gated[j], checks)
  {
    forall j | 0 <= j < |gated| ensures gated[j] in gated {
    }
  }

  /** A check the local critic failed passes in the end exactly when another result repeats its id and is in doubt,
      and the second critic passes that id. */
  lemma LocalFailIsOverturnedIff(passA: seq<CheckResult>, passB: seq<CheckResult>, checks: seq<FidelityCheck>,
                                 c: Context, critic: Critic, k: nat)
    requires AllSynced(passA) && AllSynced(passB) && k < |Kept(passA, checks)|
    requires LocalFail(Kept(passA, checks)[k], passB, CheckFor(checks, Kept(passA, checks)[k].id).value, c)
    ensures var kept := Kept(passA, checks);
      var gated := Gated(Merged(passA, passB, c.space), checks, c);
      var out := SecondOpinionGate(gated, checks, c, critic);
      var opinion := Opinion(kept[k].id, Sent(gated, checks), c, critic);
      && |out| == |kept|
      && (out[k].verdict.Pass? <==>
            && c.secondOpinion && opinion.Some? && opinion.value.passed
            && exists j | 0 <= j < |kept| :: j != k && kept[j].id == kept[k].id
                 && InDoubt(kept[j], passB, CheckFor(checks, kept[k].id).value, c))
  {
    TargetedIff(passA, passB, checks, c, Kept(passA, checks)[k].id);
    EveryVerdictIsDecided(passA, passB, checks, c, critic);
  }

  /** With one answer per id the failure stands. */
  lemma LocalFailStands(passA: seq<CheckResult>, passB: seq<CheckResult>, checks: seq<FidelityCheck>,
                        c: Context, critic: Critic, k: nat)
    requires AllSynced(passA) && AllSynced(passB)
    requires OneAnswerPerId(Kept(passA, checks)) && k < |Kept(passA, checks)|
    requires LocalFail(Kept(passA, checks)[k], passB, CheckFor(checks, Kept(passA, checks)[k].id).value, c)
    ensures var out := SecondOpinionGate(Gated(Merged(passA, passB, c.space), checks, c), checks, c, critic);
      |out| == |Kept(passA, checks)| && out[k].verdict.Fail?
  {
    TargetedIff(passA, passB, checks, c, Kept(passA, checks)[k].id);
    EveryVerdictIsDecided(passA, passB, checks, c, critic);
  }

  /** A passed fine detail was always confirmed by the second critic, even when ids repeat. */
  lemma FineDetailPassWasConfirmed(passA: seq<CheckResult>, passB: seq<CheckResult>, checks: seq<FidelityCheck>,
                                   c: Context, critic: Critic, k: nat)
    requires AllSynced(passA) && AllSynced(passB) && c.secondOpinion
    requires k < |Kept(passA, checks)| && CheckFor(checks, Kept(passA, checks)[k].id).value.fineDetail
    ensures var gated := Gated(Merged(passA, passB, c.space), checks, c);
      var out := SecondOpinionGate(gated, checks, c, critic);
      && |out| == |Kept(passA, checks)|
      && (out[k].verdict.Pass? ==>
           && c.online
           && Opinion(out[k].id, Sent(gated, checks), c, critic).Some?
           && Opinion(out[k].id, Sent(gated, checks), c, critic).value.passed)
  {
    EveryVerdictIsDecided(passA, passB, checks, c, critic);
    TargetedIff(passA, passB, checks, c, Kept(passA, checks)[k].id);
  }
}
