/** From the text of a critic's response to one verdict for each check (core/llm/critic_support.py:51-119). JSON
    decoding is left open; what the decoded values are converted to is not. */
module CriticResponse {
  import opened Wrappers
  import opened RepairGeometry
  import opened CheckResults

  /** What int(value) does: a number, a TypeError or ValueError, or the OverflowError of an infinite float. */
  datatype Coordinate = Whole(n: int) | NoNumber | Infinite

  /** What float(value) does: a number, a TypeError or ValueError, or the OverflowError of a huge integer. A missing
      value is 0.5. An infinite float and the float that is no number clamp as 1.0 or 0.0 do. */
  datatype Confidence = Number(x: real) | NoFloat | BeyondFloat

  /** What a critic says of one check; passed is none when it is missing or no boolean, box when it is no list. */
  datatype Entry = Entry(passed: Option<bool>, confidence: Confidence, box: Option<seq<Coordinate>>, note: string)

  /** The decoded text: invalid JSON, text on which the decoder raises anything else, or entries by id. */
  datatype Response = Malformed | Undecodable | Entries(byId: map<string, Entry>)

  datatype ParseError = DecoderRaised | Overflow(id: string)

  function DefaultPass(id: string, note: string): CheckResult
  {
    CheckResult(id, Pass, true, 0.0, None, note)
  }

  function Unit(x: real): real
  {
    if x < 0.0 then 0.0 else if x > 1.0 then 1.0 else x
  }

  /** The first value that is no whole number ends the conversion. */
  function FirstBad(box: seq<Coordinate>): Option<Coordinate>
  {
    if box == [] then None else if !box[0].Whole? then Some(box[0]) else FirstBad(box[1..])
  }

  lemma {:induction false} AllWhole(box: seq<Coordinate>, i: nat)
    requires FirstBad(box).None? && i < |box|
    ensures box[i].Whole?
  {
    if i > 0 {
      AllWhole(box[1..], i - 1);
    }
  }

  /** A list of four whose first value that is no whole number is an infinite one. */
  predicate BoxRaises(box: Option<seq<Coordinate>>)
  {
    box.Some? && |box.value| == 4 && FirstBad(box.value) == Some(Infinite)
  }

  function ParseBox(box: Option<seq<Coordinate>>): Option<Rect>
    requires !BoxRaises(box)
  {
    if box.None? || |box.value| != 4 || FirstBad(box.value).Some? then None
    else
      var v := box.value;
      AllWhole(v, 0);
      AllWhole(v, 1);
      AllWhole(v, 2);
      AllWhole(v, 3);
      Some(Rect(v[0].n, v[1].n, v[2].n, v[3].n))
  }

  /** A boolean passed with a number that overflows. */
  predicate EntryRaises(e: Entry)
  {
    e.passed.Some? && (e.confidence.BeyondFloat? || BoxRaises(e.box))
  }

  function ParseEntry(id: string, e: Entry): CheckResult
    requires !EntryRaises(e)
  {
    if e.passed.None? then DefaultPass(id, "missing/invalid 'passed' field")
    else
      CheckResult(id, if e.passed.value then Pass else Fail, e.passed.value,
                  if e.confidence.Number? then Unit(e.confidence.x) else 0.5, ParseBox(e.box), e.note)
  }

  predicate AnswerRaises(response: Response, id: string)
  {
    response.Undecodable? || (response.Entries? && id in response.byId && EntryRaises(response.byId[id]))
  }

  /** The decoder raised, or the entry of some asked check does. */
  predicate ParseRaises(response: Response, checks: seq<FidelityCheck>)
  {
    response.Undecodable? || exists i | 0 <= i < |checks| :: AnswerRaises(response, checks[i].id)
  }

  function Answer(response: Response, id: string): CheckResult
    requires !AnswerRaises(response, id)
  {
    if response.Malformed? then DefaultPass(id, "malformed critic JSON response")
    else if id !in response.byId then DefaultPass(id, "no verdict returned for this check")
    else ParseEntry(id, response.byId[id])
  }

  function Parsed(response: Response, checks: seq<FidelityCheck>): seq<CheckResult>
    requires !ParseRaises(response, checks)
  {
    seq(|checks|, i requires 0 <= i < |checks| => Answer(response, checks[i].id))
  }

  /** Raises exactly if the decoder did, or some asked check has an entry with a boolean verdict and a number that
      overflows; otherwise every check gets its answer. */
  method ParseCriticResponse(response: Response, checks: seq<FidelityCheck>)
    returns (r: Result<seq<CheckResult>, ParseError>)
    ensures r.Err? <==> ParseRaises(response, checks)
    ensures r.Ok? ==> r.value == Parsed(response, checks)
  {
    if response.Undecodable? {
      return Err(DecoderRaised);
    }
    var results := [];
    for i := 0 to |checks|
      invariant |results| == i
      invariant forall j | 0 <= j < i ::
        !AnswerRaises(response, checks[j].id) && results[j] == Answer(response, checks[j].id)
    {
      var id := checks[i].id;
      if AnswerRaises(response, id) {
        return Err(Overflow(id));
      }
      results := results + [Answer(response, id)];
    }
    return Ok(results);
  }

  /** Results with the same id are the same result. */
  ghost predicate OneAnswerPerId(results: seq<CheckResult>)
  {
    forall i, j | 0 <= i < |results| && 0 <= j < |results| && results[i].id == results[j].id ::
      results[i] == results[j]
  }

  /** If parsing does not raise, every check gets exactly one verdict, a pass or a fail, with a confidence from 0 to 1;
      even a repeated check gets the same verdict each time. */
  lemma ParsedIsOneAnswerPerCheck(response: Response, checks: seq<FidelityCheck>)
    requires !ParseRaises(response, checks)
    ensures var results := Parsed(response, checks);
      && |results| == |checks| && AllSynced(results) && OneAnswerPerId(results)
      && forall i | 0 <= i < |checks| ::
           results[i].id == checks[i].id && !results[i].verdict.Unverified? && 0.0 <= results[i].confidence <= 1.0
  {
    var results := Parsed(response, checks);
    forall i | 0 <= i < |checks|
      ensures results[i] == Answer(response, checks[i].id) && results[i].id == checks[i].id && Synced(results[i])
      ensures !results[i].verdict.Unverified? && 0.0 <= results[i].confidence <= 1.0
    {
      AnswerIsAVerdict(response, checks[i].id);
    }
  }

  lemma AnswerIsAVerdict(response: Response, id: string)
    requires !AnswerRaises(response, id)
    ensures var r := Answer(response, id);
      r.id == id && Synced(r) && !r.verdict.Unverified? && 0.0 <= r.confidence <= 1.0
  {
  }

  /** An answer with an infinite coordinate, such as the valid JSON number 1e999, or with an integer confidence that no
      float holds raises, whatever else the critic says of the check and of others. */
  lemma OverflowingAnswerRaises(response: Response, checks: seq<FidelityCheck>, i: nat, e: Entry)
    requires i < |checks| && response.Entries? && checks[i].id in response.byId && response.byId[checks[i].id] == e
    requires e.passed.Some?
    requires e.confidence.BeyondFloat?
          || (exists y1: Coordinate :: e.box == Some([Whole(0), Whole(0), Infinite, y1]))
    ensures ParseRaises(response, checks)
  {
    if !e.confidence.BeyondFloat? {
      var y1: Coordinate :| e.box == Some([Whole(0), Whole(0), Infinite, y1]);
      var box := e.box.value;
      assert box[1..] == [Whole(0), Infinite, y1] && box[1..][1..] == [Infinite, y1];
      assert FirstBad([Infinite, y1]) == Some(Infinite);
      assert FirstBad(box[1..]) == FirstBad([Infinite, y1]);
      assert FirstBad(box) == FirstBad(box[1..]);
      assert BoxRaises(e.box);
    }
    assert AnswerRaises(response, checks[i].id);
  }

  // ----- what an answer holds ---------------------------------------------------------------------

  lemma {:induction false} FirstBadIff(box: seq<Coordinate>, bad: Coordinate)
    ensures FirstBad(box) == Some(bad) <==>
      !bad.Whole? && exists i | 0 <= i < |box| :: box[i] == bad && forall j | 0 <= j < i :: box[j].Whole?
  {
    if box != [] {
      var rest := box[1..];
      FirstBadIff(rest, bad);
      if FirstBad(rest) == Some(bad) && box[0].Whole? {
        var i :| 0 <= i < |rest| && rest[i] == bad && forall j | 0 <= j < i :: rest[j].Whole?;
        assert box[i + 1] == bad && forall j | 0 <= j < i + 1 :: j == 0 || box[j] == rest[j - 1];
      }
      if i :| 0 <= i < |box| && box[i] == bad && !bad.Whole? && forall j | 0 <= j < i :: box[j].Whole? {
        if i > 0 {
          assert rest[i - 1] == bad && forall j | 0 <= j < i - 1 :: rest[j] == box[j + 1];
        }
      }
    }
  }

  /** A box raises exactly if it is a list of four in which only whole numbers stand before an infinite one. */
  lemma BoxRaisesIff(box: Option<seq<Coordinate>>)
    ensures BoxRaises(box) <==>
      && box.Some? && |box.value| == 4
      && exists i | 0 <= i < 4 :: box.value[i] == Infinite && forall j | 0 <= j < i :: box.value[j].Whole?
  {
    if box.Some? {
      FirstBadIff(box.value, Infinite);
    }
  }

  /** A box is read exactly if it is a list of four whole numbers, in the order x0, y0, x1, y1. */
  lemma BoxIsReadIff(box: Option<seq<Coordinate>>, r: Rect)
    requires !BoxRaises(box)
    ensures ParseBox(box) == Some(r) <==> box == Some([Whole(r.x0), Whole(r.y0), Whole(r.x1), Whole(r.y1)])
  {
    if box.Some? && |box.value| == 4 {
      var v := box.value;
      assert v == [v[0], v[1], v[2], v[3]];
      if FirstBad(v).Some? {
        FirstBadIff(v, FirstBad(v).value);
      } else {
        AllWhole(v, 0);
        AllWhole(v, 1);
        AllWhole(v, 2);
        AllWhole(v, 3);
      }
    }
  }

  /** An answer holds the critic's verdict, its box and its confidence, cut to the range from 0 to 1, and 0.5 if it is
      no number; without a usable entry it is a pass with no box and no confidence. */
  lemma AnswerHolds(response: Response, id: string)
    requires !AnswerRaises(response, id)
    ensures var r := Answer(response, id);
      if response.Entries? && id in response.byId && response.byId[id].passed.Some? then
        var e := response.byId[id];
        && r.passed == e.passed.value && (r.verdict.Fail? <==> !e.passed.value)
        && r.bbox == ParseBox(e.box) && r.note == e.note
        && (e.confidence.NoFloat? ==> r.confidence == 0.5)
        && (e.confidence.Number? ==>
              && (e.confidence.x < 0.0 ==> r.confidence == 0.0)
              && (0.0 <= e.confidence.x <= 1.0 ==> r.confidence == e.confidence.x)
              && (e.confidence.x > 1.0 ==> r.confidence == 1.0))
      else r.passed && r.verdict.Pass? && r.bbox.None? && r.confidence == 0.0
  {
  }
}
