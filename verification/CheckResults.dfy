/** The checks of a checklist and the critic's verdicts on them (core/models/schemas.py:1134-1250). */
module CheckResults {
  import opened Wrappers
  import opened RepairGeometry

  datatype BodyRegion = Head | Face | Torso | Waist | Legs | Background

  datatype FidelityCheck = FidelityCheck(id: string, region: BodyRegion, fineDetail: bool)

  datatype Verdict = Pass | Fail | Unverified

  datatype CheckResult = CheckResult(
    id: string,
    verdict: Verdict,
    passed: bool,
    confidence: real,
    bbox: Option<Rect>,
    note: string)

  /** The model validator keeps passed equal to "the verdict is pass". */
  predicate Synced(r: CheckResult)
  {
    r.passed == r.verdict.Pass?
  }

  ghost predicate AllSynced(results: seq<CheckResult>)
  {
    forall r | r in results :: Synced(r)
  }

  function CountVerdict(results: seq<CheckResult>, v: Verdict): nat
  {
    if results == [] then 0
    else (if results[0].verdict == v then 1 else 0) + CountVerdict(results[1..], v)
  }

  function CountPassed(results: seq<CheckResult>): nat
  {
    if results == [] then 0
    else (if results[0].passed then 1 else 0) + CountPassed(results[1..])
  }

  function Fails(results: seq<CheckResult>): seq<CheckResult>
  {
    if results == [] then []
    else (if results[0].verdict.Fail? then [results[0]] else []) + Fails(results[1..])
  }

  lemma FailsAreTheFailedResults(results: seq<CheckResult>, r: CheckResult)
    ensures r in Fails(results) <==> r in results && r.verdict.Fail?
  {
  }

  /** The fails are listed in the order of the results. */
  lemma {:induction false} FailsOneMore(results: seq<CheckResult>, r: CheckResult)
    ensures Fails(results + [r]) == Fails(results) + if r.verdict.Fail? then [r] else []
  {
    if results == [] {
      assert results + [r] == [r] && [r][1..] == [];
    } else {
      assert (results + [r])[1..] == results[1..] + [r];
      FailsOneMore(results[1..], r);
      ConcatAssociates(if results[0].verdict.Fail? then [results[0]] else [], Fails(results[1..]),
                       if r.verdict.Fail? then [r] else []);
    }
  }

  /** Each count goes up by one exactly for its own verdicts. */
  lemma {:induction false} CountsOneMore(results: seq<CheckResult>, r: CheckResult, v: Verdict)
    ensures CountPassed(results + [r]) == CountPassed(results) + if r.passed then 1 else 0
    ensures CountVerdict(results + [r], v) == CountVerdict(results, v) + if r.verdict == v then 1 else 0
  {
    if results == [] {
      assert results + [r] == [r] && [r][1..] == [];
    } else {
      assert (results + [r])[1..] == results[1..] + [r];
      CountsOneMore(results[1..], r, v);
    }
  }

  lemma {:induction false} VerdictsPartition(results: seq<CheckResult>)
    requires AllSynced(results)
    ensures CountPassed(results) == CountVerdict(results, Pass)
    ensures CountVerdict(results, Pass) + CountVerdict(results, Fail)
          + CountVerdict(results, Unverified) == |results|
    ensures |Fails(results)| == CountVerdict(results, Fail)
  {
    if results != [] {
      assert results[0] in results;
      assert forall r | r in results[1..] :: r in results;
      VerdictsPartition(results[1..]);
    }
  }
}
