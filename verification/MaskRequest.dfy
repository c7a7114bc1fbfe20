/** From a critic's results to the mask of a round (core/consultant/fidelity_service.py:542-559): the planner's regions
    become a request of bounded size (core/models/schemas.py:408-440), and the request a picture. */
module MaskRequest {
  import opened Wrappers
  import opened RepairGeometry
  import opened CheckResults
  import opened RepairPlanner
  import opened RepairMask
  import opened CriticResponse
  import opened CriticGates
  import opened Critique
  import StableSort

  const MAX_REQUEST_REGIONS := 32

  datatype Refusal =
    | NothingToRepair
    | InvalidRequest
    | NotDrawn(error: MaskError)

  /** The boxes cut out of the repainted area of a round. */
  function CutBoxes(results: seq<CheckResult>, k: int, dilate: int, threshold: real): seq<Rect>
  {
    SubtractBoxes(results, ChosenBoxes(results, k), dilate, threshold)
  }

  ghost predicate AllWellFormed(boxes: seq<Rect>)
  {
    forall b | b in boxes :: WellFormed(b)
  }

  /** The request fits its bounds and the picture its own, and no box is empty. */
  ghost predicate Feasible(width: int, height: int, results: seq<CheckResult>, k: int, dilate: int, threshold: real)
  {
    && width > 0 && height > 0 && width * height <= MAX_MASK_PIXELS
    && 1 <= |ChosenBoxes(results, k)| <= MAX_REQUEST_REGIONS
    && |CutBoxes(results, k, dilate, threshold)| <= MAX_REQUEST_REGIONS
    && AllWellFormed(ChosenBoxes(results, k)) && AllWellFormed(CutBoxes(results, k, dilate, threshold))
  }

  lemma BoxesOfRegions(raws: seq<Rect>, pieces: seq<Rect>, dilate: int, feather: int)
    ensures (forall q | q in RegionsOf(raws, dilate, feather) + SharpRegions(pieces) :: WellFormed(q.bbox))
       <==> AllWellFormed(raws) && AllWellFormed(pieces)
  {
    var a, b := RegionsOf(raws, dilate, feather), SharpRegions(pieces);
    forall i | 0 <= i < |raws| ensures a[i] in a + b && a[i].bbox == raws[i] {
      assert (a + b)[i] == a[i];
    }
    forall i | 0 <= i < |pieces| ensures b[i] in a + b && b[i].bbox == pieces[i] {
      assert (a + b)[|a| + i] == b[i];
    }
  }

  ghost predicate AllWhite(mask: Mask, boxes: seq<Rect>)
    requires mask.width > 0 && |mask.pixels| == 3 * (mask.width * mask.height)
  {
    forall b, x, y | b in boxes && 0 <= x < mask.width && 0 <= y < mask.height && Contains(b, x, y) ::
      Shows(mask, x, y, 255)
  }

  /** Every pixel is black that lies in none of the dilated boxes. */
  ghost predicate BlackOutside(mask: Mask, boxes: seq<Rect>, dilate: int)
    requires mask.width > 0 && |mask.pixels| == 3 * (mask.width * mask.height)
  {
    forall x, y | 0 <= x < mask.width && 0 <= y < mask.height
                  && (forall b | b in boxes :: !Contains(Dilate(b, dilate), x, y))
      :: Shows(mask, x, y, 0)
  }

  /** Every pixel of a separate passed detail is black, unless a chosen box holds it. */
  ghost predicate BlackOnDetails(mask: Mask, results: seq<CheckResult>, boxes: seq<Rect>, dilate: int, threshold: real)
    requires mask.width > 0 && |mask.pixels| == 3 * (mask.width * mask.height)
  {
    forall r, x, y | r in results && 0 <= x < mask.width && 0 <= y < mask.height
                     && CarvesPixel(r, boxes, dilate, threshold, x, y) && !Covered(boxes, x, y) :: Shows(mask, x, y, 0)
  }

  /** The visible parts of the boxes. */
  function Visible(boxes: seq<Rect>, width: int, height: int): seq<Rect>
  {
    seq(|boxes|, i requires 0 <= i < |boxes| => ClampedBox(boxes[i], width, height))
  }

  /** The mask of a planned round: made exactly for the feasible requests, and then every pixel has the level of the
      closed form. Every in-image pixel of every chosen box is white if the feather is not too wide; every pixel is
      black that lies outside the dilated visible parts of the chosen boxes, and outside the dilated boxes themselves
      unless one of these lies far beyond an edge; and every separate passed detail is black. */
  method BuildRepairMask(
      width: int, height: int, results: seq<CheckResult>, k: int := DEFAULT_TOP_K,
      dilate: int := DEFAULT_MASK_DILATE, feather: int := DEFAULT_MASK_FEATHER,
      threshold: real := DEFAULT_SUBTRACT_IOU_THRESHOLD)
    returns (r: Result<Mask, Refusal>)
    requires 0 <= dilate <= 256 && 0 <= feather <= 256
    ensures r.Ok? <==> Feasible(width, height, results, k, dilate, threshold)
    ensures r == Err(NothingToRepair) <==> Fails(results) == []
    ensures r.Ok? ==>
      && r.value.width == width && r.value.height == height
      && MaskIs(r.value.pixels, RegionsOf(ChosenBoxes(results, k), dilate, feather),
                SharpRegions(CutBoxes(results, k, dilate, threshold)), width, height)
    ensures r.Ok? && feather <= dilate + 1 ==> AllWhite(r.value, ChosenBoxes(results, k))
    ensures r.Ok? ==> BlackOutside(r.value, Visible(ChosenBoxes(results, k), width, height), dilate)
    ensures r.Ok? && (forall b | b in ChosenBoxes(results, k) :: StaysNear(b, dilate, width, height)) ==>
      BlackOutside(r.value, ChosenBoxes(results, k), dilate)
    ensures r.Ok? ==> BlackOnDetails(r.value, results, ChosenBoxes(results, k), dilate, threshold)
  {
    var raws := ChosenBoxes(results, k);
    var pieces := CutBoxes(results, k, dilate, threshold);
    var plan := PlanRound(results, k, dilate, feather, threshold);
    if plan.None? {
      NoFailsNoBoxes(results, k);
      return Err(NothingToRepair);
    }
    var p := plan.value;
    if !(1 <= |p.regions| <= MAX_REQUEST_REGIONS) || |p.subtract| > MAX_REQUEST_REGIONS {
      return Err(InvalidRequest);
    }
    BoxesOfRegions(raws, pieces, dilate, feather);
    var drawn := BuildMask(width, height, p.regions, p.subtract);
    if drawn.Err? {
      return Err(NotDrawn(drawn.error));
    }
    RestIsBlack(drawn.value, results, k, dilate, feather, threshold);
    if feather <= dilate + 1 {
      ChosenBoxesAreWhite(drawn.value, results, k, dilate, feather, threshold);
    }
    return Ok(drawn.value);
  }

  lemma NoFailsNoBoxes(results: seq<CheckResult>, k: int)
    requires Fails(results) == []
    ensures ChosenBoxes(results, k) == []
  {
    assert ByConfidence(results) == [];
  }

  lemma ChosenBoxesAreWhite(mask: Mask, results: seq<CheckResult>, k: int, dilate: int, feather: int, threshold: real)
    requires mask.width > 0 && 0 <= dilate && feather <= dilate + 1
    requires MaskIs(mask.pixels, RegionsOf(ChosenBoxes(results, k), dilate, feather),
                    SharpRegions(CutBoxes(results, k, dilate, threshold)), mask.width, mask.height)
    ensures AllWhite(mask, ChosenBoxes(results, k))
  {
    var chosen := Chosen(results, k);
    var regions := RegionsOf(RawBoxes(chosen), dilate, feather);
    var subtract := SharpRegions(CutBoxes(results, k, dilate, threshold));
    forall b, x, y | b in RawBoxes(chosen) && 0 <= x < mask.width && 0 <= y < mask.height && Contains(b, x, y)
      ensures Shows(mask, x, y, 255)
    {
      var i := ResultOfBox(chosen, b);
      ChosenAreaIsNeverHollowedOut(chosen, results, dilate, feather, threshold, mask.width, mask.height,
                                   chosen[i], x, y);
      ExtremesAreWritten(mask, regions, subtract, x, y);
    }
  }

  lemma BlankPixel(regions: seq<MaskRegion>, subtract: seq<MaskRegion>, width: int, height: int, x: int, y: int)
    requires forall q | q in regions :: RegionValue(q, width, height, x, y) == 0.0
    ensures MaskValue(regions, subtract, width, height, x, y) == 0.0
  {
    UnionIsTheMaximum(regions, width, height, x, y);
  }

  lemma RestIsBlack(mask: Mask, results: seq<CheckResult>, k: int, dilate: int, feather: int, threshold: real)
    requires mask.width > 0 && mask.height > 0 && 0 <= dilate && AllWellFormed(ChosenBoxes(results, k))
    requires MaskIs(mask.pixels, RegionsOf(ChosenBoxes(results, k), dilate, feather),
                    SharpRegions(CutBoxes(results, k, dilate, threshold)), mask.width, mask.height)
    ensures BlackOutside(mask, Visible(ChosenBoxes(results, k), mask.width, mask.height), dilate)
    ensures (forall b | b in ChosenBoxes(results, k) :: StaysNear(b, dilate, mask.width, mask.height)) ==>
      BlackOutside(mask, ChosenBoxes(results, k), dilate)
    ensures BlackOnDetails(mask, results, ChosenBoxes(results, k), dilate, threshold)
  {
    VisiblePartsBound(mask, results, k, dilate, feather, threshold);
    DilatedBoxesBound(mask, results, k, dilate, feather, threshold);
    DetailsAreBlack(mask, results, k, dilate, feather, threshold);
  }

  lemma VisiblePartsBound(mask: Mask, results: seq<CheckResult>, k: int, dilate: int, feather: int, threshold: real)
    requires mask.width > 0 && mask.height > 0 && 0 <= dilate
    requires MaskIs(mask.pixels, RegionsOf(ChosenBoxes(results, k), dilate, feather),
                    SharpRegions(CutBoxes(results, k, dilate, threshold)), mask.width, mask.height)
    ensures BlackOutside(mask, Visible(ChosenBoxes(results, k), mask.width, mask.height), dilate)
  {
    var raws := ChosenBoxes(results, k);
    var regions, subtract := RegionsOf(raws, dilate, feather), SharpRegions(CutBoxes(results, k, dilate, threshold));
    var parts := Visible(raws, mask.width, mask.height);
    forall x, y | 0 <= x < mask.width && 0 <= y < mask.height
                  && (forall b | b in parts :: !Contains(Dilate(b, dilate), x, y))
      ensures Shows(mask, x, y, 0)
    {
      forall q | q in regions ensures RegionValue(q, mask.width, mask.height, x, y) == 0.0 {
        var i :| 0 <= i < |regions| && regions[i] == q;
        assert parts[i] in parts;
        OutsideIsBlank(raws[i], dilate, feather, mask.width, mask.height, x, y);
      }
      BlankPixel(regions, subtract, mask.width, mask.height, x, y);
      ExtremesAreWritten(mask, regions, subtract, x, y);
    }
  }

  lemma DilatedBoxesBound(mask: Mask, results: seq<CheckResult>, k: int, dilate: int, feather: int, threshold: real)
    requires mask.width > 0 && mask.height > 0 && 0 <= dilate && AllWellFormed(ChosenBoxes(results, k))
    requires MaskIs(mask.pixels, RegionsOf(ChosenBoxes(results, k), dilate, feather),
                    SharpRegions(CutBoxes(results, k, dilate, threshold)), mask.width, mask.height)
    ensures (forall b | b in ChosenBoxes(results, k) :: StaysNear(b, dilate, mask.width, mask.height)) ==>
      BlackOutside(mask, ChosenBoxes(results, k), dilate)
  {
    var raws := ChosenBoxes(results, k);
    var regions, subtract := RegionsOf(raws, dilate, feather), SharpRegions(CutBoxes(results, k, dilate, threshold));
    if forall b | b in raws :: StaysNear(b, dilate, mask.width, mask.height) {
      forall x, y | 0 <= x < mask.width && 0 <= y < mask.height
                    && (forall b | b in raws :: !Contains(Dilate(b, dilate), x, y))
        ensures Shows(mask, x, y, 0)
      {
        forall q | q in regions ensures RegionValue(q, mask.width, mask.height, x, y) == 0.0 {
          var i :| 0 <= i < |regions| && regions[i] == q;
          assert raws[i] in raws;
          PaintsOnlyTheDilatedBoxIff(raws[i], dilate, feather, mask.width, mask.height);
        }
        BlankPixel(regions, subtract, mask.width, mask.height, x, y);
        ExtremesAreWritten(mask, regions, subtract, x, y);
      }
    }
  }

  lemma DetailsAreBlack(mask: Mask, results: seq<CheckResult>, k: int, dilate: int, feather: int, threshold: real)
    requires mask.width > 0 && mask.height > 0 && 0 <= dilate
    requires MaskIs(mask.pixels, RegionsOf(ChosenBoxes(results, k), dilate, feather),
                    SharpRegions(CutBoxes(results, k, dilate, threshold)), mask.width, mask.height)
    ensures BlackOnDetails(mask, results, ChosenBoxes(results, k), dilate, threshold)
  {
    var raws := ChosenBoxes(results, k);
    var regions, subtract := RegionsOf(raws, dilate, feather), SharpRegions(CutBoxes(results, k, dilate, threshold));
    forall r, x, y | r in results && 0 <= x < mask.width && 0 <= y < mask.height
                     && CarvesPixel(r, raws, dilate, threshold, x, y) && !Covered(raws, x, y)
      ensures Shows(mask, x, y, 0)
    {
      MaskClosedForm(Chosen(results, k), results, dilate, feather, threshold, mask.width, mask.height, x, y);
      ExtremesAreWritten(mask, regions, subtract, x, y);
    }
  }

  // ----- when a request is feasible -----------------------------------------------------------------

  ghost predicate BoxesWellFormed(results: seq<CheckResult>)
  {
    forall r | r in results && r.bbox.Some? :: WellFormed(r.bbox.value)
  }

  lemma {:induction false} RawBoxesAreWellFormed(chosen: seq<CheckResult>)
    requires BoxesWellFormed(chosen)
    ensures AllWellFormed(RawBoxes(chosen))
  {
    if chosen != [] {
      assert chosen[0] in chosen;
      assert forall c | c in chosen[1..] :: c in chosen;
      RawBoxesAreWellFormed(chosen[1..]);
    }
  }

  lemma {:induction false} CarvedAreWellFormed(kept: seq<CheckResult>, raws: seq<Rect>, dilate: int, threshold: real)
    requires BoxesWellFormed(kept)
    ensures AllWellFormed(Carved(kept, raws, dilate, threshold))
  {
    if kept != [] {
      assert kept[0] in kept;
      assert forall c | c in kept[1..] :: c in kept;
      CarvedAreWellFormed(kept[1..], raws, dilate, threshold);
      if kept[0].bbox.Some? {
        PiecesOfAreDisjoint(kept[0].bbox.value, raws, dilate, threshold);
      }
    }
  }

  lemma {:induction false} ReassertedAreResults(
      results: seq<CheckResult>, raws: seq<Rect>, dilate: int, seen: set<Rect>)
    ensures forall r | r in Reasserted(results, raws, dilate, seen) :: r in results
    decreases |results|
  {
    if results != [] {
      var r := results[0];
      ReassertedAreResults(results[1..], raws, dilate, if r.bbox.Some? then seen + {r.bbox.value} else seen);
      ReassertedAreResults(results[1..], raws, dilate, seen);
    }
  }

  /** When the critic's boxes are well formed, so are all boxes of the request: then a mask is made exactly if some
      chosen fail has a box, the request is within its bounds and the picture within its own. */
  lemma FeasibleIff(width: int, height: int, results: seq<CheckResult>, k: int, dilate: int, threshold: real)
    requires BoxesWellFormed(results) && k >= 0
    ensures Feasible(width, height, results, k, dilate, threshold) <==>
      && width > 0 && height > 0 && width * height <= MAX_MASK_PIXELS
      && 1 <= |ChosenBoxes(results, k)| <= MAX_REQUEST_REGIONS
      && |CutBoxes(results, k, dilate, threshold)| <= MAX_REQUEST_REGIONS
  {
    var raws := ChosenBoxes(results, k);
    SelectionIsGreedyMaximal(results, k);
    RawBoxesAreWellFormed(Chosen(results, k));
    ReassertedAreResults(results, raws, dilate, {});
    CarvedAreWellFormed(Reasserted(results, raws, dilate, {}), raws, dilate, threshold);
  }

  // ----- a plan that cannot be drawn ----------------------------------------------------------------

  /** The box reaches beyond the other on all four sides. */
  predicate Encloses(box: Rect, other: Rect)
  {
    box.x0 < other.x0 && box.y0 < other.y0 && other.x1 < box.x1 && other.y1 < box.y1
  }

  /** Passed results with different boxes, each around the one chosen box and a different region from it. */
  ghost predicate Around(passed: seq<CheckResult>, raw: Rect, threshold: real)
  {
    && (forall r | r in passed ::
          r.passed && r.bbox.Some? && Encloses(r.bbox.value, raw) && Iou(r.bbox.value, raw) < threshold)
    && (forall i, j | 0 <= i < j < |passed| :: passed[i].bbox != passed[j].bbox)
  }

  lemma FourPieces(box: Rect, raw: Rect, dilate: int, threshold: real)
    requires WellFormed(raw) && Encloses(box, raw) && Iou(box, raw) < threshold && dilate >= 0
    ensures Touching(box, [raw], dilate) == [raw]
    ensures |PiecesOf(box, [raw], dilate, threshold)| == 4
  {
    assert [raw][1..] == [];
    assert Touching(box, [raw], dilate) == [raw] + Touching(box, [], dilate);
    assert [box][1..] == [] && [box][0] == box;
    assert ClipEach([box], raw) == ClipExcluding(box, raw) + ClipEach([], raw);
    assert ClipAll([box], [raw]) == ClipAll(ClipEach([box], raw), []);
  }

  lemma {:induction false} EachMakesFourPieces(
      passed: seq<CheckResult>, raw: Rect, dilate: int, threshold: real, seen: set<Rect>)
    requires WellFormed(raw) && dilate >= 0 && Around(passed, raw, threshold)
    requires forall r | r in passed :: r.bbox.value !in seen
    ensures |Carved(Reasserted(passed, [raw], dilate, seen), [raw], dilate, threshold)| == 4 * |passed|
    decreases |passed|
  {
    if passed != [] {
      var r, rest := passed[0], passed[1..];
      assert r in passed;
      assert forall q | q in rest :: q in passed;
      forall q | q in rest ensures q.bbox.value !in seen + {r.bbox.value} {
        var j :| 0 <= j < |rest| && rest[j] == q;
        assert passed[j + 1] == q && passed[0].bbox != passed[j + 1].bbox;
      }
      forall i, j | 0 <= i < j < |rest| ensures rest[i].bbox != rest[j].bbox {
        assert passed[i + 1].bbox != passed[j + 1].bbox;
      }
      FourPieces(r.bbox.value, raw, dilate, threshold);
      EachMakesFourPieces(rest, raw, dilate, threshold, seen + {r.bbox.value});
      assert passed[0..] == passed;
      ReassertedStep(passed, 0, [raw], dilate, threshold, seen);
    }
  }

  /** One confirmed fail with n passed boxes around it makes 4 * n pieces: the request is within its bounds if and only
      if n is at most eight. */
  lemma SurroundedFailIsFeasibleIff(fail: CheckResult, passed: seq<CheckResult>, width: int, height: int,
                                    k: int, dilate: int, threshold: real)
    requires fail.verdict.Fail? && !fail.passed && fail.bbox.Some? && WellFormed(fail.bbox.value)
    requires Around(passed, fail.bbox.value, threshold) && forall r | r in passed :: r.verdict.Pass?
    requires k > 0 && dilate >= 0 && width > 0 && height > 0 && width * height <= MAX_MASK_PIXELS
    ensures ChosenBoxes([fail] + passed, k) == [fail.bbox.value]
    ensures |CutBoxes([fail] + passed, k, dilate, threshold)| == 4 * |passed|
    ensures Feasible(width, height, [fail] + passed, k, dilate, threshold) <==> |passed| <= 8
  {
    var raw, results := fail.bbox.value, [fail] + passed;
    OnlyFailIsChosen(fail, passed, k);
    assert results[0..] == results && results[1..] == passed;
    ReassertedStep(results, 0, [raw], dilate, threshold, {});
    EachMakesFourPieces(passed, raw, dilate, threshold, {});
    forall r | r in results && r.bbox.Some? ensures WellFormed(r.bbox.value) {
      assert r == fail || r in passed;
    }
    FeasibleIff(width, height, results, k, dilate, threshold);
  }

  lemma OnlyFailIsChosen(fail: CheckResult, passed: seq<CheckResult>, k: int)
    requires fail.verdict.Fail? && fail.bbox.Some? && k > 0 && forall r | r in passed :: r.verdict.Pass?
    ensures ChosenBoxes([fail] + passed, k) == [fail.bbox.value]
  {
    NoFailsAmongPassed(passed);
    assert ([fail] + passed)[1..] == passed && [fail][1..] == [];
    assert Fails([fail] + passed) == [fail] + [];
    assert Fails([fail] + passed) == [fail];
    var key := (r: CheckResult) => -r.confidence;
    assert StableSort.Sort([], key) == [];
    assert StableSort.Sort([fail], key) == StableSort.Insert(fail, [], key);
    assert ByConfidence([fail] + passed) == [fail];
    var none: seq<CheckResult> := [];
    assert none + [fail] == [fail];
    assert Greedy([fail][1..], k, [fail]) == [fail];
    assert Greedy([fail], k, none) == [fail];
    assert Chosen([fail] + passed, k) == [fail];
    assert RawBoxes([fail]) == [fail.bbox.value] + RawBoxes(none);
  }

  lemma {:induction false} NoFailsAmongPassed(passed: seq<CheckResult>)
    requires forall r | r in passed :: r.verdict.Pass?
    ensures Fails(passed) == []
  {
    if passed != [] {
      assert passed[0] in passed;
      assert forall r | r in passed[1..] :: r in passed;
      NoFailsAmongPassed(passed[1..]);
    }
  }

  function FrameBox(i: nat): Rect { Rect(80 - i, 80, 130, 130) }

  function Frames(n: nat): seq<CheckResult>
  {
    seq(n, i requires 0 <= i < n => CheckResult("frame", Pass, true, 1.0, Some(FrameBox(i)), ""))
  }

  /** Nine passed boxes around one failed box: there is a plan, and no mask for it. */
  lemma NinePassedBoxesAreTooMany()
    ensures var fail := CheckResult("fail", Fail, false, 1.0, Some(Rect(100, 100, 110, 110)), "");
      var results := [fail] + Frames(9);
      && AllSynced(results) && BoxesWellFormed(results) && Fails(results) != []
      && |CutBoxes(results, DEFAULT_TOP_K, DEFAULT_MASK_DILATE, DEFAULT_SUBTRACT_IOU_THRESHOLD)| == 36
      && !Feasible(200, 200, results, DEFAULT_TOP_K, DEFAULT_MASK_DILATE, DEFAULT_SUBTRACT_IOU_THRESHOLD)
  {
    var raw := Rect(100, 100, 110, 110);
    var fail := CheckResult("fail", Fail, false, 1.0, Some(raw), "");
    var results := [fail] + Frames(9);
    forall i: nat | i < 9 ensures Iou(FrameBox(i), raw) < 0.3 && Encloses(FrameBox(i), raw) {
      FrameIsLarge(i);
    }
    SurroundedFailIsFeasibleIff(fail, Frames(9), 200, 200, DEFAULT_TOP_K, DEFAULT_MASK_DILATE,
                                DEFAULT_SUBTRACT_IOU_THRESHOLD);
    assert results[0] == fail;
  }

  lemma FrameIsLarge(i: nat)
    requires i < 9
    ensures Iou(FrameBox(i), Rect(100, 100, 110, 110)) < 0.3
  {
    var raw := Rect(100, 100, 110, 110);
    assert Meet(FrameBox(i), raw) == raw && Area(raw) == 100;
    assert Area(FrameBox(i)) == (50 + i) * 50;
  }

  // ----- a box that cannot be drawn -------------------------------------------------------------------

  /** A lone confirmed fail has a mask exactly if its box is well formed. */
  lemma LoneFailIsFeasibleIff(fail: CheckResult, width: int, height: int, k: int, dilate: int, threshold: real)
    requires fail.verdict.Fail? && !fail.passed && fail.bbox.Some? && k > 0
    requires width > 0 && height > 0 && width * height <= MAX_MASK_PIXELS
    ensures Feasible(width, height, [fail], k, dilate, threshold) <==> WellFormed(fail.bbox.value)
  {
    var none: seq<CheckResult> := [];
    assert [fail] + none == [fail];
    OnlyFailIsChosen(fail, none, k);
    var raws := ChosenBoxes([fail], k);
    assert [fail][1..] == none && [fail][0..] == [fail];
    ReassertedStep([fail], 0, raws, dilate, threshold, {});
    assert CutBoxes([fail], k, dilate, threshold) == [];
    assert raws[0] == fail.bbox.value;
  }

  /** Nothing orders the coordinates a critic sends: an inverted or empty box in the right region has area 0, so the
      gates let the failure stand, and then no mask can be made of it. */
  lemma InvertedBoxIsConfirmedAndCannotBeDrawn(
      box: Rect, check: FidelityCheck, confidence: real, note: string, c: Context, second: SecondCritic,
      out: seq<CheckResult>, k: int, dilate: int, threshold: real)
    requires (box.x1 <= box.x0 || box.y1 <= box.y0) && RegionCompatible(check.region, box, c)
    requires k > 0 && c.width > 0 && c.height > 0 && c.width * c.height <= MAX_MASK_PIXELS
    requires !ParseRaises(AnswerWith(check.id, box, confidence, note), [check])
    requires AllDecided(out, AnswerWith(check.id, box, confidence, note), AnswerWith(check.id, box, confidence, note),
                        [check], c, second)
    ensures |out| == 1 && out[0].verdict.Fail? && out[0].bbox == Some(box)
    ensures !Feasible(c.width, c.height, out, k, dilate, threshold)
  {
    var response := AnswerWith(check.id, box, confidence, note);
    AnswerIsRead(check.id, box, confidence, note);
    var a := Parsed(response, [check])[0];
    assert a == Answer(response, check.id);
    assert CheckFor([check], check.id) == Some(check);
    assert BothFailed(a, a, check, c);
    assert out[0].id == check.id && Decided(out[0], a, a, check, c,
      OpinionOf(check.id, AskedChecks(response, response, [check], c), c, second));
    assert out == [out[0]];
    LoneFailIsFeasibleIff(out[0], c.width, c.height, k, dilate, threshold);
  }

  /** The response that fails one check with one box. */
  function AnswerWith(id: string, box: Rect, confidence: real, note: string): Response
  {
    var coordinates := [Whole(box.x0), Whole(box.y0), Whole(box.x1), Whole(box.y1)];
    Entries(map[id := Entry(Some(false), Number(confidence), Some(coordinates), note)])
  }

  lemma AnswerIsRead(id: string, box: Rect, confidence: real, note: string)
    ensures var response := AnswerWith(id, box, confidence, note);
      && !AnswerRaises(response, id)
      && Answer(response, id).bbox == Some(box) && Answer(response, id).verdict.Fail? && !Answer(response, id).passed
  {
    var v := [Whole(box.x0), Whole(box.y0), Whole(box.x1), Whole(box.y1)];
    assert v[1..] == [Whole(box.y0), Whole(box.x1), Whole(box.y1)];
    assert v[1..][1..] == [Whole(box.x1), Whole(box.y1)];
    assert v[1..][1..][1..] == [Whole(box.y1)];
    assert FirstBad([Whole(box.y1)]).None?;
    assert FirstBad(v[1..][1..]).None?;
    assert FirstBad(v[1..]).None?;
    assert FirstBad(v).None?;
  }
}
