/** The planner of one refine round: which failed checks to repair, which area to
    repaint and which passed details to keep (core/consultant/fidelity_loop.py:184-289
    and 405-459). */
module RepairPlanner {
  import opened Wrappers
  import opened RepairGeometry
  import opened CheckResults
  import StableSort

  datatype MaskRegion = MaskRegion(bbox: Rect, dilate: int, feather: int)

  datatype RoundPlan = RoundPlan(
    chosen: seq<CheckResult>,
    reasserted: seq<CheckResult>,
    regions: seq<MaskRegion>,
    subtract: seq<MaskRegion>)

  const DEFAULT_TOP_K := 2
  const DEFAULT_MASK_DILATE := 12
  const DEFAULT_MASK_FEATHER := 8
  const DEFAULT_SUBTRACT_IOU_THRESHOLD := 0.3

  // ----- selection of the failed checks ------------------------------------------

  /** A missing box overlaps nothing. */
  predicate BoxesOverlap(a: Option<Rect>, b: Option<Rect>)
  {
    a.Some? && b.Some? && Overlaps(a.value, b.value)
  }

  ghost predicate PairwiseApart(chosen: seq<CheckResult>)
  {
    forall i, j | 0 <= i < j < |chosen| :: !BoxesOverlap(chosen[j].bbox, chosen[i].bbox)
  }

  function ByConfidence(results: seq<CheckResult>): seq<CheckResult>
  {
    StableSort.Sort(Fails(results), (r: CheckResult) => -r.confidence)
  }

  /** What the greedy pass adds to chosen from the ordered candidates. */
  function Greedy(ordered: seq<CheckResult>, k: int, chosen: seq<CheckResult>): seq<CheckResult>
    decreases |ordered|
  {
    if ordered == [] || |chosen| >= k then chosen
    else if exists c | c in chosen :: BoxesOverlap(ordered[0].bbox, c.bbox) then
      Greedy(ordered[1..], k, chosen)
    else
      Greedy(ordered[1..], k, chosen + [ordered[0]])
  }

  method SelectTopKFailed(results: seq<CheckResult>, k: int := DEFAULT_TOP_K)
    returns (chosen: seq<CheckResult>)
    ensures chosen == Greedy(ByConfidence(results), k, [])
  {
    var ordered := ByConfidence(results);
    chosen := [];
    var i := 0;
    while i < |ordered|
      invariant 0 <= i <= |ordered|
      invariant Greedy(ordered[i..], k, chosen) == Greedy(ordered, k, [])
    {
      if |chosen| >= k {
        break;
      }
      var candidate := ordered[i];
      assert ordered[i..][1..] == ordered[i + 1..];
      if !exists c | c in chosen :: BoxesOverlap(candidate.bbox, c.bbox) {
        chosen := chosen + [candidate];
      }
      i := i + 1;
    }
  }

  ghost predicate BlockedBy(f: CheckResult, chosen: seq<CheckResult>)
  {
    exists c | c in chosen :: BoxesOverlap(f.bbox, c.bbox) && c.confidence >= f.confidence
  }

  ghost predicate Outranked(f: CheckResult, chosen: seq<CheckResult>)
  {
    forall c | c in chosen :: c.confidence >= f.confidence
  }

  lemma HeadIsMostConfident(ordered: seq<CheckResult>)
    requires StableSort.SortedBy(ordered, (r: CheckResult) => -r.confidence) && ordered != []
    ensures StableSort.SortedBy(ordered[1..], (r: CheckResult) => -r.confidence)
    ensures forall f | f in ordered[1..] :: ordered[0].confidence >= f.confidence
  {
    var key, rest := (r: CheckResult) => -r.confidence, ordered[1..];
    forall f | f in rest ensures ordered[0].confidence >= f.confidence {
      var j :| 0 <= j < |rest| && rest[j] == f;
      assert key(ordered[0]) <= key(ordered[j + 1]);
    }
  }

  lemma {:induction false} GreedyChoice(ordered: seq<CheckResult>, k: int, chosen: seq<CheckResult>)
    requires StableSort.SortedBy(ordered, (r: CheckResult) => -r.confidence)
    requires forall c, f | c in chosen && f in ordered :: c.confidence >= f.confidence
    requires PairwiseApart(chosen)
    ensures var out := Greedy(ordered, k, chosen);
      && PairwiseApart(out)
      && chosen <= out
      && (|chosen| <= k ==> |out| <= k)
      && (forall c | c in out :: c in chosen || c in ordered)
      && (forall f | f in ordered && f !in out :: BlockedBy(f, out) || (|out| >= k && Outranked(f, out)))
    decreases |ordered|
  {
    if ordered != [] && |chosen| < k {
      var head, rest := ordered[0], ordered[1..];
      HeadIsMostConfident(ordered);
      var blocked := exists c | c in chosen :: BoxesOverlap(head.bbox, c.bbox);
      var next := if blocked then chosen else chosen + [head];
      GreedyChoice(rest, k, next);
      var out := Greedy(ordered, k, chosen);
      if blocked {
        var c :| c in chosen && BoxesOverlap(head.bbox, c.bbox);
        assert c in out;
      } else {
        assert head in next;
        assert head in out;
      }
    }
  }

  /** The chosen checks are confirmed fails, at most k, pairwise apart; and a fail is left out only when a chosen fail
      with at least its confidence overlaps it, or the quota is used up by fails with at least its confidence. */
  lemma SelectionIsGreedyMaximal(results: seq<CheckResult>, k: int)
    requires k >= 0
    ensures var chosen := Greedy(ByConfidence(results), k, []);
      && |chosen| <= k
      && PairwiseApart(chosen)
      && (forall c | c in chosen :: c in results && c.verdict.Fail?)
      && (forall f | f in results && f.verdict.Fail? && f !in chosen ::
            || BlockedBy(f, chosen)
            || (|chosen| == k && Outranked(f, chosen)))
      && (k > 0 ==> (chosen == [] <==> Fails(results) == []))
  {
    var key := (r: CheckResult) => -r.confidence;
    var fails := Fails(results);
    StableSort.SortIsSorted(fails, key);
    GreedyChoice(ByConfidence(results), k, []);
    var chosen := Greedy(ByConfidence(results), k, []);
    forall r {:trigger r in results} {:trigger r in ByConfidence(results)}
      ensures r in ByConfidence(results) <==> r in results && r.verdict.Fail?
    {
      StableSort.SortHasSameItems(fails, key, r);
      FailsAreTheFailedResults(results, r);
    }
    if k > 0 && fails != [] {
      FailsAreTheFailedResults(results, fails[0]);
      assert fails[0] in chosen || |chosen| >= k || BlockedBy(fails[0], chosen);
    }
    if fails == [] {
      assert ByConfidence(results) == [];
    }
  }

  /** Fails with the same confidence are taken in the order of the results. */
  lemma TiesKeepTheirOrder(results: seq<CheckResult>, confidence: real)
    ensures var key := (r: CheckResult) => -r.confidence;
      && StableSort.SortedBy(ByConfidence(results), key)
      && StableSort.WithKey(ByConfidence(results), key, -confidence)
         == StableSort.WithKey(Fails(results), key, -confidence)
  {
    var key := (r: CheckResult) => -r.confidence;
    StableSort.SortIsSorted(Fails(results), key);
    StableSort.SortIsStable(Fails(results), key, -confidence);
  }

  // ----- mask regions ----------------------------------------------------------------

  function RawBoxes(chosen: seq<CheckResult>): seq<Rect>
  {
    if chosen == [] then []
    else (if chosen[0].bbox.Some? then [chosen[0].bbox.value] else []) + RawBoxes(chosen[1..])
  }

  function RegionsOf(raws: seq<Rect>, dilate: int, feather: int): seq<MaskRegion>
  {
    seq(|raws|, i requires 0 <= i < |raws| => MaskRegion(raws[i], dilate, feather))
  }

  function SharpRegions(pieces: seq<Rect>): seq<MaskRegion>
  {
    seq(|pieces|, i requires 0 <= i < |pieces| => MaskRegion(pieces[i], 0, 0))
  }

  /** The raw boxes whose dilated extent meets the given box. */
  function Touching(box: Rect, raws: seq<Rect>, dilate: int): seq<Rect>
  {
    if raws == [] then []
    else
      var near := if Overlaps(box, Dilate(raws[0], dilate)) then [raws[0]] else [];
      near + Touching(box, raws[1..], dilate)
  }

  /** The passed results next to a chosen box, one for each distinct box, in encounter order. */
  function Reasserted(results: seq<CheckResult>, raws: seq<Rect>, dilate: int, seen: set<Rect>)
    : seq<CheckResult>
    decreases |results|
  {
    if results == [] then []
    else
      var r := results[0];
      if r.passed && r.bbox.Some? && Touching(r.bbox.value, raws, dilate) != [] && r.bbox.value !in seen
      then [r] + Reasserted(results[1..], raws, dilate, seen + {r.bbox.value})
      else Reasserted(results[1..], raws, dilate, seen)
  }

  /** The box is the same region as one of the chosen boxes it touches. */
  predicate SameRegion(box: Rect, raws: seq<Rect>, dilate: int, threshold: real)
  {
    exists raw | raw in Touching(box, raws, dilate) :: Iou(box, raw) >= threshold
  }

  function PiecesOf(box: Rect, raws: seq<Rect>, dilate: int, threshold: real): seq<Rect>
  {
    if SameRegion(box, raws, dilate, threshold) then []
    else ClipAll([box], Touching(box, raws, dilate))
  }

  function Carved(kept: seq<CheckResult>, raws: seq<Rect>, dilate: int, threshold: real): seq<Rect>
  {
    if kept == [] then []
    else
      var pieces := if kept[0].bbox.Some? then PiecesOf(kept[0].bbox.value, raws, dilate, threshold) else [];
      pieces + Carved(kept[1..], raws, dilate, threshold)
  }

  function SubtractBoxes(results: seq<CheckResult>, raws: seq<Rect>, dilate: int, threshold: real): seq<Rect>
  {
    Carved(Reasserted(results, raws, dilate, {}), raws, dilate, threshold)
  }

  method ClipPieces(pieces: seq<Rect>, raw: Rect) returns (clipped: seq<Rect>)
    ensures clipped == ClipEach(pieces, raw)
  {
    clipped := [];
    for j := 0 to |pieces|
      invariant clipped + ClipEach(pieces[j..], raw) == ClipEach(pieces, raw)
    {
      var strips := ClipExcluding(pieces[j], raw);
      assert pieces[j..][1..] == pieces[j + 1..];
      assert ClipEach(pieces[j..], raw) == strips + ClipEach(pieces[j + 1..], raw);
      ConcatAssociates(clipped, strips, ClipEach(pieces[j + 1..], raw));
      clipped := clipped + strips;
    }
    assert pieces[|pieces|..] == [] && clipped + [] == clipped;
  }

  method ClipAgainst(box: Rect, excludes: seq<Rect>) returns (pieces: seq<Rect>)
    ensures pieces == ClipAll([box], excludes)
  {
    pieces := [box];
    for i := 0 to |excludes|
      invariant ClipAll(pieces, excludes[i..]) == ClipAll([box], excludes)
    {
      assert excludes[i..][1..] == excludes[i + 1..];
      pieces := ClipPieces(pieces, excludes[i]);
    }
  }

  method ChosenRegions(chosen: seq<CheckResult>, dilate: int, feather: int)
    returns (regions: seq<MaskRegion>, raws: seq<Rect>)
    ensures raws == RawBoxes(chosen)
    ensures regions == RegionsOf(raws, dilate, feather)
  {
    regions, raws := [], [];
    for i := 0 to |chosen|
      invariant raws + RawBoxes(chosen[i..]) == RawBoxes(chosen)
      invariant regions == RegionsOf(raws, dilate, feather)
    {
      assert chosen[i..][1..] == chosen[i + 1..];
      if chosen[i].bbox.Some? {
        regions := regions + [MaskRegion(chosen[i].bbox.value, dilate, feather)];
        raws := raws + [chosen[i].bbox.value];
      }
    }
  }

  predicate Kept(r: CheckResult, raws: seq<Rect>, dilate: int, seen: set<Rect>)
  {
    r.passed && r.bbox.Some? && Touching(r.bbox.value, raws, dilate) != [] && r.bbox.value !in seen
  }

  lemma ReassertedStep(
      results: seq<CheckResult>, i: nat, raws: seq<Rect>, dilate: int, threshold: real, seen: set<Rect>)
    requires i < |results|
    ensures var r := results[i]; var now := Reasserted(results[i..], raws, dilate, seen);
      if Kept(r, raws, dilate, seen) then
        var rest := Reasserted(results[i + 1..], raws, dilate, seen + {r.bbox.value});
        && now == [r] + rest
        && Carved(now, raws, dilate, threshold)
           == PiecesOf(r.bbox.value, raws, dilate, threshold) + Carved(rest, raws, dilate, threshold)
      else now == Reasserted(results[i + 1..], raws, dilate, seen)
  {
    assert results[i..][1..] == results[i + 1..];
    var r, now := results[i], Reasserted(results[i..], raws, dilate, seen);
    if Kept(r, raws, dilate, seen) {
      assert now[1..] == Reasserted(results[i + 1..], raws, dilate, seen + {r.bbox.value});
    }
  }

  method CarvePassed(results: seq<CheckResult>, raws: seq<Rect>, dilate: int, threshold: real)
    returns (boxes: seq<Rect>, reasserted: seq<CheckResult>)
    ensures boxes == SubtractBoxes(results, raws, dilate, threshold)
    ensures reasserted == Reasserted(results, raws, dilate, {})
  {
    var seen: set<Rect> := {};
    boxes, reasserted := [], [];
    ghost var todo := Reasserted(results, raws, dilate, {});
    assert results[0..] == results;
    for i := 0 to |results|
      invariant todo == Reasserted(results[i..], raws, dilate, seen)
      invariant reasserted + todo == Reasserted(results, raws, dilate, {})
      invariant boxes + Carved(todo, raws, dilate, threshold) == SubtractBoxes(results, raws, dilate, threshold)
    {
      ReassertedStep(results, i, raws, dilate, threshold, seen);
      if Kept(results[i], raws, dilate, seen) {
        var box := results[i].bbox.value;
        var pieces := [];
        if !SameRegion(box, raws, dilate, threshold) {
          pieces := ClipAgainst(box, Touching(box, raws, dilate));
        }
        ghost var rest := Reasserted(results[i + 1..], raws, dilate, seen + {box});
        assert pieces == PiecesOf(box, raws, dilate, threshold);
        ConcatAssociates(reasserted, [results[i]], rest);
        ConcatAssociates(boxes, pieces, Carved(rest, raws, dilate, threshold));
        seen := seen + {box};
        todo := rest;
        reasserted := reasserted + [results[i]];
        boxes := boxes + pieces;
      }
    }
  }

  method BuildMaskRegions(
      chosen: seq<CheckResult>, results: seq<CheckResult>,
      dilate: int := DEFAULT_MASK_DILATE, feather: int := DEFAULT_MASK_FEATHER,
      threshold: real := DEFAULT_SUBTRACT_IOU_THRESHOLD)
    returns (regions: seq<MaskRegion>, subtract: seq<MaskRegion>, reasserted: seq<CheckResult>)
    requires 0 <= dilate <= 256 && 0 <= feather <= 256
    ensures regions == RegionsOf(RawBoxes(chosen), dilate, feather)
    ensures subtract == SharpRegions(SubtractBoxes(results, RawBoxes(chosen), dilate, threshold))
    ensures reasserted == Reasserted(results, RawBoxes(chosen), dilate, {})
  {
    var raws, boxes;
    regions, raws := ChosenRegions(chosen, dilate, feather);
    boxes, reasserted := CarvePassed(results, raws, dilate, threshold);
    subtract := SharpRegions(boxes);
  }

  /** The checks and boxes that a round repairs. */
  function Chosen(results: seq<CheckResult>, k: int): seq<CheckResult>
  {
    Greedy(ByConfidence(results), k, [])
  }

  function ChosenBoxes(results: seq<CheckResult>, k: int): seq<Rect>
  {
    RawBoxes(Chosen(results, k))
  }

  /** What a round repairs, repaints and keeps; none exactly when no confirmed fail remains. */
  method PlanRound(
      results: seq<CheckResult>, k: int := DEFAULT_TOP_K,
      dilate: int := DEFAULT_MASK_DILATE, feather: int := DEFAULT_MASK_FEATHER,
      threshold: real := DEFAULT_SUBTRACT_IOU_THRESHOLD)
    returns (plan: Option<RoundPlan>)
    requires 0 <= dilate <= 256 && 0 <= feather <= 256
    ensures plan.None? <==> Fails(results) == []
    ensures plan.Some? && k > 0 ==> plan.value.chosen != []
    ensures plan.Some? ==>
      && plan.value.chosen == Chosen(results, k)
      && plan.value.regions == RegionsOf(ChosenBoxes(results, k), dilate, feather)
      && plan.value.subtract == SharpRegions(SubtractBoxes(results, ChosenBoxes(results, k), dilate, threshold))
      && plan.value.reasserted == Reasserted(results, ChosenBoxes(results, k), dilate, {})
  {
    var fails := Fails(results);
    if fails == [] {
      return None;
    }
    if k > 0 {
      SelectionIsGreedyMaximal(results, k);
    }
    var chosen := SelectTopKFailed(results, k);
    var regions, subtract, reasserted := BuildMaskRegions(chosen, results, dilate, feather, threshold);
    return Some(RoundPlan(chosen, reasserted, regions, subtract));
  }

  // ----- what the subtracted area is --------------------------------------------------

  lemma TouchingAreTheNearBoxes(box: Rect, raws: seq<Rect>, dilate: int, raw: Rect)
    ensures raw in Touching(box, raws, dilate) <==> raw in raws && Overlaps(box, Dilate(raw, dilate))
  {
  }

  /** A passed detail is reasserted exactly when its box meets a dilated chosen box and no earlier passed result has the
      same box, whether it is carved out of the mask or not; the order is that of the results. */
  lemma ReassertedOneMore(results: seq<CheckResult>, r: CheckResult, raws: seq<Rect>, dilate: int)
    ensures Reasserted(results + [r], raws, dilate, {})
      == Reasserted(results, raws, dilate, {})
         + if && r.passed && r.bbox.Some?
              && (exists raw | raw in raws :: Overlaps(r.bbox.value, Dilate(raw, dilate)))
              && (forall q | q in results && q.passed :: q.bbox != r.bbox)
           then [r] else []
  {
    ReassertedAfter(results, r, raws, dilate, {});
    if r.bbox.Some? {
      TouchesSome(r.bbox.value, raws, dilate);
    }
  }

  lemma TouchesSome(box: Rect, raws: seq<Rect>, dilate: int)
    ensures Touching(box, raws, dilate) != [] <==> exists raw | raw in raws :: Overlaps(box, Dilate(raw, dilate))
  {
    if Touching(box, raws, dilate) != [] {
      TouchingAreTheNearBoxes(box, raws, dilate, Touching(box, raws, dilate)[0]);
    }
    forall raw | raw in raws && Overlaps(box, Dilate(raw, dilate)) ensures raw in Touching(box, raws, dilate) {
      TouchingAreTheNearBoxes(box, raws, dilate, raw);
    }
  }

  lemma {:induction false} ReassertedAfter(results: seq<CheckResult>, r: CheckResult, raws: seq<Rect>, dilate: int,
                                           seen: set<Rect>)
    ensures Reasserted(results + [r], raws, dilate, seen)
      == Reasserted(results, raws, dilate, seen)
         + if Kept(r, raws, dilate, seen) && (forall q | q in results && q.passed :: q.bbox != r.bbox)
           then [r] else []
    decreases |results|
  {
    if results == [] {
      assert results + [r] == [r] && [r][1..] == [];
    } else {
      var head, rest := results[0], results[1..];
      assert (results + [r])[1..] == rest + [r];
      assert forall q :: q in results <==> q == head || q in rest;
      if Kept(head, raws, dilate, seen) {
        ReassertedAfter(rest, r, raws, dilate, seen + {head.bbox.value});
      } else {
        ReassertedAfter(rest, r, raws, dilate, seen);
      }
    }
  }

  lemma {:induction false} RawBoxesOneMore(chosen: seq<CheckResult>, r: CheckResult)
    ensures RawBoxes(chosen + [r]) == RawBoxes(chosen) + if r.bbox.Some? then [r.bbox.value] else []
  {
    if chosen == [] {
      assert chosen + [r] == [r] && [r][1..] == [];
    } else {
      assert (chosen + [r])[1..] == chosen[1..] + [r];
      RawBoxesOneMore(chosen[1..], r);
      ConcatAssociates(if chosen[0].bbox.Some? then [chosen[0].bbox.value] else [], RawBoxes(chosen[1..]),
                       if r.bbox.Some? then [r.bbox.value] else []);
    }
  }

  /** A box that is carved out: it touches a chosen box and is a different region from
      every chosen box that it touches. */
  ghost predicate Separate(box: Rect, raws: seq<Rect>, dilate: int, threshold: real)
  {
    && (exists raw | raw in raws :: Overlaps(box, Dilate(raw, dilate)))
    && (forall raw | raw in raws && Overlaps(box, Dilate(raw, dilate)) :: Iou(box, raw) < threshold)
  }

  ghost predicate CarvesPixel(r: CheckResult, raws: seq<Rect>, dilate: int, threshold: real, x: int, y: int)
  {
    r.passed && r.bbox.Some? && Separate(r.bbox.value, raws, dilate, threshold) && Contains(r.bbox.value, x, y)
  }

  lemma PiecesOfCoversTheRemainder(box: Rect, raws: seq<Rect>, dilate: int, threshold: real, x: int, y: int)
    requires dilate >= 0
    ensures Touching(box, raws, dilate) == [] ==> !Separate(box, raws, dilate, threshold)
    ensures Touching(box, raws, dilate) != [] ==>
      Covered(PiecesOf(box, raws, dilate, threshold), x, y)
      == (Separate(box, raws, dilate, threshold) && Contains(box, x, y) && !Covered(raws, x, y))
  {
    var near := Touching(box, raws, dilate);
    forall raw ensures raw in near <==> raw in raws && Overlaps(box, Dilate(raw, dilate)) {
      TouchingAreTheNearBoxes(box, raws, dilate, raw);
    }
    if near != [] {
      assert near[0] in near;
      ClipAllCoversTheDifference([box], near, x, y);
      assert Covered([box], x, y) <==> Contains(box, x, y) by { assert box in [box]; }
      // A raw box that the dilated test misses shares no pixel with the passed box.
      assert Contains(box, x, y) ==> (Covered(near, x, y) <==> Covered(raws, x, y));
    }
  }

  /** Some result not yet seen carves the pixel out. */
  ghost predicate SomeCarves(results: seq<CheckResult>, raws: seq<Rect>, dilate: int, threshold: real,
                             seen: set<Rect>, x: int, y: int)
  {
    exists r | r in results :: CarvesPixel(r, raws, dilate, threshold, x, y) && r.bbox.value !in seen
  }

  lemma SomeCarvesStep(results: seq<CheckResult>, raws: seq<Rect>, dilate: int, threshold: real,
                       seen: set<Rect>, x: int, y: int)
    requires results != [] && dilate >= 0
    ensures var r := results[0];
      SomeCarves(results, raws, dilate, threshold, seen, x, y)
      <==> if Kept(r, raws, dilate, seen)
           then CarvesPixel(r, raws, dilate, threshold, x, y)
                || SomeCarves(results[1..], raws, dilate, threshold, seen + {r.bbox.value}, x, y)
           else SomeCarves(results[1..], raws, dilate, threshold, seen, x, y)
  {
    var r, rest := results[0], results[1..];
    assert forall q :: q in results <==> q == r || q in rest;
    if r.bbox.Some? {
      PiecesOfCoversTheRemainder(r.bbox.value, raws, dilate, threshold, x, y);
    }
  }

  lemma {:induction false} CarvedCovers(
      results: seq<CheckResult>, raws: seq<Rect>, dilate: int, threshold: real, seen: set<Rect>, x: int, y: int)
    requires dilate >= 0
    ensures Covered(Carved(Reasserted(results, raws, dilate, seen), raws, dilate, threshold), x, y)
        <==> !Covered(raws, x, y) && SomeCarves(results, raws, dilate, threshold, seen, x, y)
    decreases |results|
  {
    if results != [] {
      var r, rest := results[0], results[1..];
      assert results[0..] == results;
      ReassertedStep(results, 0, raws, dilate, threshold, seen);
      SomeCarvesStep(results, raws, dilate, threshold, seen, x, y);
      if Kept(r, raws, dilate, seen) {
        var box := r.bbox.value;
        CarvedCovers(rest, raws, dilate, threshold, seen + {box}, x, y);
        PiecesOfCoversTheRemainder(box, raws, dilate, threshold, x, y);
        CoveredConcat(PiecesOf(box, raws, dilate, threshold),
                      Carved(Reasserted(rest, raws, dilate, seen + {box}), raws, dilate, threshold), x, y);
      } else {
        CarvedCovers(rest, raws, dilate, threshold, seen, x, y);
      }
    }
  }

  /** The subtracted pixels are exactly those of some passed box that touches a dilated chosen box
      and is a different region from each of them, minus every chosen box. */
  lemma SubtractedPixels(results: seq<CheckResult>, raws: seq<Rect>, dilate: int, threshold: real, x: int, y: int)
    requires dilate >= 0
    ensures Covered(SubtractBoxes(results, raws, dilate, threshold), x, y)
        <==> !Covered(raws, x, y) && exists r | r in results :: CarvesPixel(r, raws, dilate, threshold, x, y)
  {
    CarvedCovers(results, raws, dilate, threshold, {}, x, y);
  }

  /** The pieces of one well-formed passed box are non-empty and share no pixel. */
  lemma PiecesOfAreDisjoint(box: Rect, raws: seq<Rect>, dilate: int, threshold: real)
    requires WellFormed(box)
    ensures DisjointPieces(PiecesOf(box, raws, dilate, threshold))
  {
    ClipAllKeepsPiecesDisjoint([box], Touching(box, raws, dilate));
  }
}
