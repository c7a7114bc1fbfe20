/** The refine-loop controller (core/consultant/fidelity_loop.py:509-597 and
    core/consultant/fidelity_service.py:256-409). The critic, the mask builder and the refiner are
    injected; a Reply is whatever they answer in one round, so every claim holds for all of them. */
module FidelityLoop {
  import opened Wrappers
  import opened CheckResults
  import opened RepairPlanner
  import StableSort

  type AssetId = string

  datatype LoopStatus =
    | PendingCritique | Critiquing | AwaitingUser | BuildingMask | Refining
    | Passed | StoppedMaxRounds | StoppedRegressionRecovered | StoppedUnverified | LoopFailed

  predicate Awaiting(s: LoopStatus) { s == AwaitingUser || s == StoppedRegressionRecovered }
  predicate Terminal(s: LoopStatus)
  {
    s == Passed || s == StoppedMaxRounds || s == StoppedUnverified || s == LoopFailed
  }

  const INITIAL_BEST_PASS_COUNT := -1

  datatype RoundOutcome = RoundOutcome(
    status: LoopStatus, nextTarget: AssetId, bestAsset: AssetId, bestPassCount: int, regressed: bool)

  function DecideRoundOutcome(
      newAsset: AssetId, newPass: int, newFail: int, newUnverified: int,
      completedRound: int, maxRounds: int, bestAsset: AssetId, bestPass: int): RoundOutcome
  {
    var reachedCap := completedRound >= maxRounds;
    if newFail == 0 && newUnverified == 0 then
      RoundOutcome(Passed, newAsset, newAsset, newPass, false)
    else if newFail == 0 then
      if newPass < bestPass then RoundOutcome(StoppedUnverified, bestAsset, bestAsset, bestPass, true)
      else RoundOutcome(StoppedUnverified, newAsset, newAsset, newPass, false)
    else if newPass < bestPass then
      RoundOutcome(
        if reachedCap then StoppedMaxRounds else StoppedRegressionRecovered, bestAsset, bestAsset, bestPass, true)
    else
      RoundOutcome(if reachedCap then StoppedMaxRounds else AwaitingUser, newAsset, newAsset, newPass, false)
  }

  /** The recorded best falls exactly when the critic confirms everything with fewer passes than before,
      which a fixed checklist rules out. */
  lemma BestFallsIff(
      newAsset: AssetId, newPass: int, newFail: int, newUnverified: int,
      completedRound: int, maxRounds: int, bestAsset: AssetId, bestPass: int)
    ensures var o := DecideRoundOutcome(
        newAsset, newPass, newFail, newUnverified, completedRound, maxRounds, bestAsset, bestPass);
      && (o.bestPassCount < bestPass <==> newFail == 0 && newUnverified == 0 && newPass < bestPass)
      && (o.bestPassCount >= bestPass ==>
            o.bestPassCount == (if newPass >= bestPass then newPass else bestPass)
            && o.bestAsset == (if newPass >= bestPass then newAsset else bestAsset))
      && (o.bestPassCount < bestPass ==> o.bestPassCount == newPass && o.bestAsset == newAsset)
      && o.nextTarget == o.bestAsset
      && (o.regressed <==> newPass < bestPass && (newFail != 0 || newUnverified != 0))
      && (o.status == Passed <==> newFail == 0 && newUnverified == 0)
      && (o.status == StoppedUnverified <==> newFail == 0 && newUnverified != 0)
      && (o.status == StoppedMaxRounds <==> newFail != 0 && completedRound >= maxRounds)
      && (Awaiting(o.status) <==> newFail != 0 && completedRound < maxRounds)
      && (o.regressed && Awaiting(o.status) <==> o.status == StoppedRegressionRecovered)
  {
  }

  datatype Round = Round(index: int, asset: AssetId, results: seq<CheckResult>, passCount: nat, failCount: nat)

  datatype Loop = Loop(
    root: AssetId, status: LoopStatus, currentRound: int, maxRounds: int,
    bestAsset: AssetId, bestPassCount: int, lastError: Option<string>)

  /** A loop with its recorded rounds. */
  datatype Run = Run(loop: Loop, rounds: seq<Round>)

  datatype Reply =
    | ImageUnreadable                          // the target image cannot be read, before planning
    | Raised(error: string)                    // the mask builder, the refiner or the critic raised
    | Critiqued(asset: AssetId, results: seq<CheckResult>)

  /** Rounds as the store lists them, by round index. */
  function ListRounds(rounds: seq<Round>): (r: seq<Round>)
    ensures |r| == |rounds|
  {
    StableSort.Sort(rounds, IndexOf)
  }

  function IndexOf(r: Round): real { r.index as real }

  function LastForAsset(rounds: seq<Round>, asset: AssetId): Option<Round>
  {
    if rounds == [] then None
    else if rounds[|rounds| - 1].asset == asset then Some(rounds[|rounds| - 1])
    else LastForAsset(rounds[..|rounds| - 1], asset)
  }

  function LatestRound(rounds: seq<Round>): Round
    requires rounds != []
  {
    ListRounds(rounds)[|rounds| - 1]
  }

  lemma LatestRoundIsNewest(rounds: seq<Round>)
    requires rounds != []
    ensures LatestRound(rounds) in rounds
    ensures forall r | r in rounds :: r.index <= LatestRound(rounds).index
  {
    var listed := ListRounds(rounds);
    var last := listed[|listed| - 1];
    StableSort.SortIsSorted(rounds, IndexOf);
    StableSort.SortHasSameItems(rounds, IndexOf, last);
    forall r | r in rounds ensures r.index <= last.index {
      StableSort.SortHasSameItems(rounds, IndexOf, r);
      var i :| 0 <= i < |listed| && listed[i] == r;
      assert i < |listed| - 1 ==> IndexOf(listed[i]) <= IndexOf(last);
    }
  }

  /** The asset that the next round works on, and the round whose verdicts it plans from. */
  function NextTarget(run: Run): (AssetId, Round)
    requires run.rounds != []
  {
    var latest := LatestRound(run.rounds);
    if run.loop.status == StoppedRegressionRecovered then
      var found := LastForAsset(ListRounds(run.rounds), run.loop.bestAsset);
      (run.loop.bestAsset, if found.Some? then found.value else latest)
    else (latest.asset, latest)
  }

  function RecordRound(run: Run, index: int, asset: AssetId, results: seq<CheckResult>, bestPass: int): Run
  {
    var pass := CountPassed(results);
    var o := DecideRoundOutcome(asset, pass, CountVerdict(results, Fail), CountVerdict(results, Unverified),
                                index, run.loop.maxRounds, run.loop.bestAsset, bestPass);
    CountPassedBound(results);
    Run(run.loop.(
          status := o.status, currentRound := index, bestAsset := o.bestAsset, bestPassCount := o.bestPassCount),
        run.rounds + [Round(index, asset, results, pass, |results| - pass)])
  }

  lemma CountPassedBound(results: seq<CheckResult>)
    ensures CountPassed(results) <= |results|
  {
  }

  function Created(root: AssetId, maxRounds: int): Run
  {
    Run(Loop(root, PendingCritique, 0, maxRounds, root, 0, None), [])
  }

  function Baseline(run: Run, reply: Reply): Run
  {
    match reply
    case ImageUnreadable => run.(loop := run.loop.(status := LoopFailed, lastError := Some("unreadable")))
    case Raised(e) => run.(loop := run.loop.(status := LoopFailed, lastError := Some(e)))
    case Critiqued(_, results) => RecordRound(run, 0, run.loop.root, results, INITIAL_BEST_PASS_COUNT)
  }

  function RefineRound(run: Run, reply: Reply): Run
    requires run.rounds != []
  {
    var source := NextTarget(run).1;
    if reply.ImageUnreadable? then run
    else if Fails(source.results) == [] then
      var status := if CountVerdict(source.results, Unverified) > 0 then StoppedUnverified else Passed;
      run.(loop := run.loop.(status := status))
    else
      match reply
      case Raised(e) => run.(loop := run.loop.(status := LoopFailed, lastError := Some(e)))
      case Critiqued(asset, results) =>
        RecordRound(run, run.loop.currentRound + 1, asset, results, run.loop.bestPassCount)
  }

  // ----- the invariant of a run over a fixed checklist ---------------------------------------------

  /** The critic answers with one synced result for each of the n checks. */
  ghost predicate Complete(reply: Reply, n: nat)
  {
    reply.Critiqued? ==> |reply.results| == n && AllSynced(reply.results)
  }

  /** The last round with the most passes. */
  function BestIndex(rounds: seq<Round>): (b: nat)
    requires rounds != []
    ensures b < |rounds|
  {
    if |rounds| == 1 then 0
    else
      var b := BestIndex(rounds[..|rounds| - 1]);
      if rounds[|rounds| - 1].passCount >= rounds[b].passCount then |rounds| - 1 else b
  }

  lemma {:induction false} BestIndexIsTheLastMaximum(rounds: seq<Round>)
    requires rounds != []
    ensures var b := BestIndex(rounds);
      && (forall i | 0 <= i < |rounds| :: rounds[i].passCount <= rounds[b].passCount)
      && (forall i | b < i < |rounds| :: rounds[i].passCount < rounds[b].passCount)
  {
    if |rounds| > 1 {
      BestIndexIsTheLastMaximum(rounds[..|rounds| - 1]);
    }
  }

  ghost predicate RoundOk(r: Round, i: nat, n: nat)
  {
    r.index == i && |r.results| == n && AllSynced(r.results) && r.passCount == CountPassed(r.results)
  }

  /** What a stopped loop's status says about its last round. */
  ghost predicate StatusOk(loop: Loop, last: Round)
  {
    match loop.status
    case AwaitingUser =>
      loop.currentRound < loop.maxRounds && Fails(last.results) != [] && last.passCount == loop.bestPassCount
    case StoppedRegressionRecovered =>
      loop.currentRound < loop.maxRounds && Fails(last.results) != [] && last.passCount < loop.bestPassCount
    case StoppedMaxRounds => loop.currentRound == loop.maxRounds && Fails(last.results) != []
    case StoppedUnverified => Fails(last.results) == [] && CountVerdict(last.results, Unverified) > 0
    case Passed => CountVerdict(last.results, Pass) == |last.results|
    case LoopFailed => Fails(last.results) != [] && loop.currentRound < loop.maxRounds
    case _ => false
  }

  ghost predicate LoopInv(run: Run, n: nat)
  {
    && run.rounds != []
    && |run.rounds| == run.loop.currentRound + 1
    && run.loop.currentRound <= run.loop.maxRounds
    && (forall i | 0 <= i < |run.rounds| :: RoundOk(run.rounds[i], i, n))
    && (forall i | 0 <= i < |run.rounds| - 1 :: Fails(run.rounds[i].results) != [])
    && StatusOk(run.loop, run.rounds[|run.rounds| - 1])
    && run.loop.bestPassCount == run.rounds[BestIndex(run.rounds)].passCount
    && run.loop.bestAsset == run.rounds[BestIndex(run.rounds)].asset
  }

  lemma ListRoundsOfOrdered(rounds: seq<Round>)
    requires forall i | 0 <= i < |rounds| :: rounds[i].index == i
    ensures ListRounds(rounds) == rounds
  {
    assert StableSort.SortedBy(rounds, IndexOf);
    StableSort.SortOfSorted(rounds, IndexOf);
  }

  lemma BestIndexOneMore(rounds: seq<Round>, r: Round)
    requires rounds != []
    ensures BestIndex(rounds + [r]) ==
      if r.passCount >= rounds[BestIndex(rounds)].passCount then |rounds| else BestIndex(rounds)
  {
    assert (rounds + [r])[..|rounds|] == rounds;
  }

  /** What recording a round makes of the loop: with as many results as there were passes at best, the best count never
      falls. */
  lemma RecordedOutcome(run: Run, asset: AssetId, results: seq<CheckResult>)
    requires AllSynced(results) && run.loop.bestPassCount <= |results|
    requires 0 <= run.loop.currentRound < run.loop.maxRounds
    ensures var next := RecordRound(run, run.loop.currentRound + 1, asset, results, run.loop.bestPassCount);
      var pass := CountPassed(results);
      && |next.rounds| == |run.rounds| + 1
      && var last := next.rounds[|run.rounds|];
      && next.rounds == run.rounds + [last] && RoundOk(last, run.loop.currentRound + 1, |results|)
      && last == Round(run.loop.currentRound + 1, asset, results, pass, |results| - pass) && StatusOk(next.loop, last)
      && next.loop.currentRound == run.loop.currentRound + 1 && next.loop.maxRounds == run.loop.maxRounds
      && (if pass >= run.loop.bestPassCount
          then next.loop.bestPassCount == pass && next.loop.bestAsset == asset
          else next.loop.bestPassCount == run.loop.bestPassCount && next.loop.bestAsset == run.loop.bestAsset)
  {
    VerdictsPartition(results);
  }

  lemma BestIsAtMostTheChecklist(run: Run, n: nat)
    requires LoopInv(run, n)
    ensures run.loop.bestPassCount <= n
  {
    var b := BestIndex(run.rounds);
    assert RoundOk(run.rounds[b], b, n);
    CountPassedBound(run.rounds[b].results);
  }

  /** A round appended to a run whose rounds all have a confirmed fail keeps the invariant, if the loop follows it. */
  lemma OneMoreRoundKeepsInv(run: Run, next: Run, last: Round, n: nat)
    requires LoopInv(run, n) && Fails(run.rounds[|run.rounds| - 1].results) != []
    requires next.rounds == run.rounds + [last] && RoundOk(last, |run.rounds|, n) && StatusOk(next.loop, last)
    requires next.loop.currentRound == |run.rounds| <= next.loop.maxRounds
    requires if last.passCount >= run.loop.bestPassCount
             then next.loop.bestPassCount == last.passCount && next.loop.bestAsset == last.asset
             else next.loop.bestPassCount == run.loop.bestPassCount && next.loop.bestAsset == run.loop.bestAsset
    ensures LoopInv(next, n) && next.loop.bestPassCount >= run.loop.bestPassCount
  {
    var k := |run.rounds|;
    BestIndexOneMore(run.rounds, last);
    assert forall i | 0 <= i < k :: next.rounds[i] == run.rounds[i];
    assert next.rounds[k] == last;
  }

  lemma RecordKeepsInv(run: Run, asset: AssetId, results: seq<CheckResult>, n: nat)
    requires LoopInv(run, n) && Awaiting(run.loop.status)
    requires |results| == n && AllSynced(results)
    ensures var next := RecordRound(run, run.loop.currentRound + 1, asset, results, run.loop.bestPassCount);
      LoopInv(next, n) && next.loop.bestPassCount >= run.loop.bestPassCount
  {
    var next := RecordRound(run, run.loop.currentRound + 1, asset, results, run.loop.bestPassCount);
    BestIsAtMostTheChecklist(run, n);
    RecordedOutcome(run, asset, results);
    OneMoreRoundKeepsInv(run, next, next.rounds[|run.rounds|], n);
  }

  /** In an awaiting loop the round planned from has a confirmed fail, so a plan always exists. */
  lemma PlanAlwaysExists(run: Run, n: nat)
    requires LoopInv(run, n) && Awaiting(run.loop.status)
    ensures Fails(NextTarget(run).1.results) != []
    ensures NextTarget(run).1 in run.rounds
  {
    ListRoundsOfOrdered(run.rounds);
    LastForAssetIsARound(run.rounds, run.loop.bestAsset);
  }

  lemma {:induction false} LastForAssetIsARound(rounds: seq<Round>, asset: AssetId)
    ensures var f := LastForAsset(rounds, asset);
      if f.Some? then
        exists i | 0 <= i < |rounds| :: f.value == rounds[i] && rounds[i].asset == asset
                                        && forall j | i < j < |rounds| :: rounds[j].asset != asset
      else forall i | 0 <= i < |rounds| :: rounds[i].asset != asset
  {
    if rounds != [] && rounds[|rounds| - 1].asset != asset {
      LastForAssetIsARound(rounds[..|rounds| - 1], asset);
    }
  }

  lemma RecoverySource(run: Run, n: nat) returns (i: nat)
    requires LoopInv(run, n) && run.loop.status == StoppedRegressionRecovered
    ensures i < |run.rounds| && NextTarget(run) == (run.loop.bestAsset, run.rounds[i])
    ensures run.rounds[i].asset == run.loop.bestAsset
    ensures forall j | i < j < |run.rounds| :: run.rounds[j].asset != run.loop.bestAsset
  {
    ListRoundsOfOrdered(run.rounds);
    LastForAssetIsARound(run.rounds, run.loop.bestAsset);
    i :| 0 <= i < |run.rounds| && NextTarget(run).1 == run.rounds[i] && run.rounds[i].asset == run.loop.bestAsset
         && forall j | i < j < |run.rounds| :: run.rounds[j].asset != run.loop.bestAsset;
  }

  /** While the user is awaited the next round targets the asset of the last round and plans from that round. */
  lemma AwaitingTargetsTheLastRound(run: Run, n: nat)
    requires LoopInv(run, n) && run.loop.status == AwaitingUser
    ensures var last := run.rounds[run.loop.currentRound];
      NextTarget(run) == (last.asset, last)
  {
    ListRoundsOfOrdered(run.rounds);
  }

  /** What the next round works on: the newest round and its asset, or after a regression the best asset and the newest
      round of it, if there is one. */
  ghost predicate Targets(run: Run, target: AssetId, source: Round)
  {
    && source in run.rounds
    && (run.loop.status != StoppedRegressionRecovered ==>
          target == source.asset && forall q | q in run.rounds :: q.index <= source.index)
    && (run.loop.status == StoppedRegressionRecovered ==>
          && target == run.loop.bestAsset
          && (if exists q | q in run.rounds :: q.asset == target
              then source.asset == target && forall q | q in run.rounds && q.asset == target :: q.index <= source.index
              else forall q | q in run.rounds :: q.index <= source.index))
  }

  lemma NewestOfAsset(rounds: seq<Round>, asset: AssetId)
    ensures var found := LastForAsset(ListRounds(rounds), asset);
      && (found.None? <==> forall q | q in rounds :: q.asset != asset)
      && (found.Some? ==>
            && found.value in rounds && found.value.asset == asset
            && forall q | q in rounds && q.asset == asset :: q.index <= found.value.index)
  {
    var listed := ListRounds(rounds);
    StableSort.SortIsSorted(rounds, IndexOf);
    LastForAssetIsARound(listed, asset);
    forall q {:trigger q in rounds} {:trigger q in listed} ensures q in listed <==> q in rounds {
      StableSort.SortHasSameItems(rounds, IndexOf, q);
    }
    var found := LastForAsset(listed, asset);
    if found.Some? {
      var i :| 0 <= i < |listed| && found.value == listed[i] && listed[i].asset == asset
               && forall j | i < j < |listed| :: listed[j].asset != asset;
      forall q | q in rounds && q.asset == asset ensures q.index <= found.value.index {
        assert q in listed;
        var j :| 0 <= j < |listed| && listed[j] == q;
        assert j < i ==> IndexOf(listed[j]) <= IndexOf(listed[i]);
      }
    }
  }

  lemma NextTargetTargets(run: Run)
    requires run.rounds != []
    ensures Targets(run, NextTarget(run).0, NextTarget(run).1)
  {
    LatestRoundIsNewest(run.rounds);
    NewestOfAsset(run.rounds, run.loop.bestAsset);
  }

  /** The outcome of a critiqued round, whatever the critic answered: with a fail the loop goes on below its cap,
      without one it stops; the best asset is the new one unless some check is left open and fewer pass than before.
      */
  ghost predicate OutcomeFits(after: Loop, asset: AssetId, results: seq<CheckResult>, index: int, best: AssetId,
                              bestPass: int)
  {
    var pass := CountPassed(results);
    var failed := exists r | r in results :: r.verdict.Fail?;
    var open := exists r | r in results :: r.verdict.Unverified?;
    var worse := (failed || open) && pass < bestPass;
    && after.currentRound == index
    && after.bestAsset == (if worse then best else asset)
    && after.bestPassCount == (if worse then bestPass else pass)
    && after.status ==
       if failed then
         if index >= after.maxRounds then StoppedMaxRounds
         else if worse then StoppedRegressionRecovered else AwaitingUser
       else if open then StoppedUnverified else Passed
  }

  lemma RecordFits(run: Run, index: int, asset: AssetId, results: seq<CheckResult>, bestPass: int)
    ensures OutcomeFits(RecordRound(run, index, asset, results, bestPass).loop, asset, results, index,
                        run.loop.bestAsset, bestPass)
  {
    SomeVerdict(results, Fail);
    SomeVerdict(results, Unverified);
  }

  /** What one round makes of the run when it plans from source: nothing if the image is unreadable; a final status
      without a confirmed fail; a failure with its message; or one more round and its outcome. */
  ghost predicate Refined(before: Run, after: Run, source: Round, reply: Reply, raised: bool)
  {
    if reply.ImageUnreadable? then raised && after == before
    else if forall r | r in source.results :: !r.verdict.Fail? then
      var status := if exists r | r in source.results :: r.verdict.Unverified? then StoppedUnverified else Passed;
      !raised && after == before.(loop := before.loop.(status := status))
    else
      match reply
      case Raised(e) =>
        raised && after == before.(loop := before.loop.(status := LoopFailed, lastError := Some(e)))
      case Critiqued(asset, results) =>
        var pass := CountPassed(results);
        && !raised && pass <= |results|
        && after.rounds == before.rounds + [Round(before.loop.currentRound + 1, asset, results, pass, |results| - pass)]
        && OutcomeFits(after.loop, asset, results, before.loop.currentRound + 1, before.loop.bestAsset,
                       before.loop.bestPassCount)
        && after.loop.root == before.loop.root && after.loop.maxRounds == before.loop.maxRounds
        && after.loop.lastError == before.loop.lastError
  }

  lemma {:induction false} SomeVerdict(results: seq<CheckResult>, v: Verdict)
    ensures CountVerdict(results, v) > 0 <==> exists r | r in results :: r.verdict == v
  {
    if results != [] {
      SomeVerdict(results[1..], v);
      assert results == [results[0]] + results[1..];
    }
  }

  lemma NoFails(results: seq<CheckResult>)
    ensures Fails(results) == [] <==> forall r | r in results :: !r.verdict.Fail?
  {
    forall r ensures r in Fails(results) <==> r in results && r.verdict.Fail? {
      FailsAreTheFailedResults(results, r);
    }
    if Fails(results) != [] {
      assert Fails(results)[0] in Fails(results);
    }
  }

  lemma RefineRoundIsRefined(run: Run, reply: Reply)
    requires run.rounds != []
    ensures var source := NextTarget(run).1;
      var raised := reply.ImageUnreadable? || (reply.Raised? && Fails(source.results) != []);
      Refined(run, RefineRound(run, reply), source, reply, raised)
  {
    var source := NextTarget(run).1;
    NoFails(source.results);
    SomeVerdict(source.results, Unverified);
    if reply.Critiqued? {
      CountPassedBound(reply.results);
      RecordFits(run, run.loop.currentRound + 1, reply.asset, reply.results, run.loop.bestPassCount);
    }
  }

  /** The baseline critique of a new loop: a failure with its message, or round 0 of the root asset, against which
      nothing regresses. */
  lemma BaselineEffect(run: Run, reply: Reply)
    ensures var next := Baseline(run, reply);
      match reply
      case ImageUnreadable => next.loop.status == LoopFailed && next.loop.lastError.Some? && next.rounds == run.rounds
      case Raised(e) =>
        next == run.(loop := run.loop.(status := LoopFailed, lastError := Some(e)))
      case Critiqued(_, results) =>
        var pass := CountPassed(results);
        && pass <= |results| && next.rounds == run.rounds + [Round(0, run.loop.root, results, pass, |results| - pass)]
        && OutcomeFits(next.loop, run.loop.root, results, 0, run.loop.bestAsset, -1)
        && next.loop.bestPassCount == pass && next.loop.bestAsset == run.loop.root
        && next.loop.root == run.loop.root && next.loop.maxRounds == run.loop.maxRounds
  {
    if reply.Critiqued? {
      CountPassedBound(reply.results);
      RecordFits(run, 0, run.loop.root, reply.results, INITIAL_BEST_PASS_COUNT);
    }
  }

  /** After a regression the next round targets the best asset and plans from the best round itself,
      exactly when no later round reported the same asset again. */
  lemma RecoveryPlansFromTheBestRoundIff(run: Run, n: nat)
    requires LoopInv(run, n) && run.loop.status == StoppedRegressionRecovered
    ensures var b := BestIndex(run.rounds); var (target, source) := NextTarget(run);
      && target == run.rounds[b].asset && b < |run.rounds| - 1
      && source.asset == target
      && (source == run.rounds[b] <==> forall j | b < j < |run.rounds| :: run.rounds[j].asset != target)
  {
    BestIndexIsTheLastMaximum(run.rounds);
    var i := RecoverySource(run, n);
    var b := BestIndex(run.rounds);
    assert RoundOk(run.rounds[i], i, n) && RoundOk(run.rounds[b], b, n);
    assert run.rounds[i] == run.rounds[b] <==> i == b;
  }

  lemma AwaitingIsBelowTheCap(run: Run, n: nat)
    requires LoopInv(run, n)
    ensures if Awaiting(run.loop.status) then run.loop.currentRound < run.loop.maxRounds else Terminal(run.loop.status)
  {
  }

  lemma BaselineEstablishesInv(root: AssetId, maxRounds: int, results: seq<CheckResult>)
    requires maxRounds >= 1 && AllSynced(results)
    ensures LoopInv(Baseline(Created(root, maxRounds), Critiqued(root, results)), |results|)
  {
    VerdictsPartition(results);
  }

  lemma RefineKeepsInv(run: Run, reply: Reply, n: nat)
    requires LoopInv(run, n) && Awaiting(run.loop.status) && Complete(reply, n)
    ensures LoopInv(RefineRound(run, reply), n)
    ensures RefineRound(run, reply).loop.bestPassCount >= run.loop.bestPassCount
    ensures run.rounds <= RefineRound(run, reply).rounds
    ensures reply.Critiqued? ==> |RefineRound(run, reply).rounds| == |run.rounds| + 1
    ensures reply.Raised? ==> RefineRound(run, reply).loop.status == LoopFailed
  {
    PlanAlwaysExists(run, n);
    match reply {
      case Critiqued(asset, results) =>
        RecordKeepsInv(run, asset, results, n);
      case Raised(e) =>
      case ImageUnreadable =>
    }
  }

  // ----- whole runs -----------------------------------------------------------------------------------

  /** Rounds are run only while the loop awaits one. */
  function RefineIfAwaited(run: Run, reply: Reply): (next: Run)
    requires run.rounds != []
    ensures next.rounds != []
  {
    if Awaiting(run.loop.status) then RefineRound(run, reply) else run
  }

  /** The run on the replies so far; a reply may depend on everything before it. */
  function RunRounds(run: Run, replies: seq<Reply>): (end: Run)
    requires run.rounds != []
    ensures end.rounds != []
  {
    if replies == [] then run
    else RefineIfAwaited(RunRounds(run, replies[..|replies| - 1]), replies[|replies| - 1])
  }

  ghost predicate AllComplete(replies: seq<Reply>, n: nat)
  {
    forall i | 0 <= i < |replies| :: Complete(replies[i], n)
  }

  lemma RefineIfAwaitedKeepsInv(run: Run, reply: Reply, n: nat)
    requires LoopInv(run, n) && Complete(reply, n)
    ensures var next := RefineIfAwaited(run, reply);
      && LoopInv(next, n) && run.rounds <= next.rounds
      && next.loop.bestPassCount >= run.loop.bestPassCount && next.loop.maxRounds == run.loop.maxRounds
  {
    if Awaiting(run.loop.status) {
      RefineKeepsInv(run, reply, n);
    }
  }

  /** Over every run the best count is the maximum of all recorded rounds and never decreases. */
  lemma {:induction false} RunKeepsInv(run: Run, replies: seq<Reply>, n: nat)
    requires LoopInv(run, n) && AllComplete(replies, n)
    ensures var end := RunRounds(run, replies);
      && LoopInv(end, n) && run.rounds <= end.rounds
      && end.loop.bestPassCount >= run.loop.bestPassCount && end.loop.maxRounds == run.loop.maxRounds
  {
    if replies != [] {
      var last := |replies| - 1;
      RunKeepsInv(run, replies[..last], n);
      RefineIfAwaitedKeepsInv(RunRounds(run, replies[..last]), replies[last], n);
    }
  }

  /** The best count is the maximum over all rounds and the best asset is that of the last round attaining it; an
      awaiting loop is below its cap and all its rounds have a confirmed fail. */
  ghost predicate Sound(run: Run)
  {
    && (exists b | 0 <= b < |run.rounds| ::
          && run.loop.bestPassCount == run.rounds[b].passCount && run.loop.bestAsset == run.rounds[b].asset
          && (forall i | 0 <= i < |run.rounds| :: run.rounds[i].passCount <= run.rounds[b].passCount)
          && (forall i | b < i < |run.rounds| :: run.rounds[i].passCount < run.rounds[b].passCount))
    && |run.rounds| == run.loop.currentRound + 1 <= run.loop.maxRounds + 1
    && (Awaiting(run.loop.status) ==>
          run.loop.currentRound < run.loop.maxRounds && forall r | r in run.rounds :: Fails(r.results) != [])
  }

  /** Every run of a loop over a fixed checklist is sound, from the baseline on. */
  lemma EveryRunIsSound(root: AssetId, maxRounds: int, baseline: seq<CheckResult>, replies: seq<Reply>)
    requires maxRounds >= 1 && AllSynced(baseline) && AllComplete(replies, |baseline|)
    ensures var run := RunRounds(Baseline(Created(root, maxRounds), Critiqued(root, baseline)), replies);
      Sound(run) && run.loop.maxRounds == maxRounds
  {
    var start := Baseline(Created(root, maxRounds), Critiqued(root, baseline));
    BaselineEstablishesInv(root, maxRounds, baseline);
    assert start.loop.maxRounds == maxRounds;
    EveryContinuationIsSound(start, replies, |baseline|);
  }

  lemma EveryContinuationIsSound(start: Run, replies: seq<Reply>, n: nat)
    requires LoopInv(start, n) && AllComplete(replies, n)
    ensures var run := RunRounds(start, replies);
      Sound(run) && run.loop.maxRounds == start.loop.maxRounds
  {
    RunKeepsInv(start, replies, n);
    InvMeansSound(RunRounds(start, replies), n);
  }

  lemma InvMeansSound(run: Run, n: nat)
    requires LoopInv(run, n)
    ensures Sound(run)
  {
    BestIndexIsTheLastMaximum(run.rounds);
  }

  /** Without a fixed checklist the best count can fall: a critic that answers nothing passes the loop with zero. */
  lemma BestFallsOnAnEmptyCritique(a: CheckResult, b: CheckResult)
    requires a.verdict == Pass && a.passed && b.verdict == Fail && !b.passed
    ensures var run := Baseline(Created("root", 4), Critiqued("root", [a, b]));
      && Awaiting(run.loop.status) && run.loop.bestPassCount == 1
      && RefineRound(run, Critiqued("new", [])).loop.status == Passed
      && RefineRound(run, Critiqued("new", [])).loop.bestPassCount == 0
  {
    var results := [a, b];
    assert results[1..] == [b] && [b][1..] == [];
    assert CountPassed([b]) == 0 && CountVerdict([b], Fail) == 1 && Fails([b]) == [b];
    assert CountPassed(results) == 1 && CountVerdict(results, Fail) == 1 && Fails(results) == [b];
    var run := Baseline(Created("root", 4), Critiqued("root", results));
    ListRoundsOfOrdered(run.rounds);
  }

  /** A refiner that returns the best asset again: after the regression the plan comes from that later round's
      results, not from those of the best round. */
  lemma RepeatedAssetReplacesTheSource(pass: CheckResult, fail: CheckResult)
    requires pass.verdict == Pass && pass.passed && fail.verdict == Fail && !fail.passed
    ensures var start := Baseline(Created("root", 4), Critiqued("root", [pass, fail]));
      var run := RefineRound(start, Critiqued("root", [fail, fail]));
      && run.loop.status == StoppedRegressionRecovered && run.loop.bestPassCount == 1
      && |run.rounds| == 2 && NextTarget(run) == ("root", run.rounds[1]) && run.rounds[1].results == [fail, fail]
  {
    OneOfTwo(pass, fail);
    OneOfTwo(fail, fail);
    var start := Baseline(Created("root", 4), Critiqued("root", [pass, fail]));
    ListRoundsOfOrdered(start.rounds);
    var run := RefineRound(start, Critiqued("root", [fail, fail]));
    ListRoundsOfOrdered(run.rounds);
  }

  lemma OneOfTwo(a: CheckResult, b: CheckResult)
    requires b.verdict == Fail && !b.passed
    ensures CountPassed([a, b]) == (if a.passed then 1 else 0)
    ensures CountVerdict([a, b], Fail) == (if a.verdict.Fail? then 2 else 1)
    ensures Fails([a, b]) != []
  {
    assert [a, b][1..] == [b] && [b][1..] == [];
    assert CountPassed([b]) == 0 && CountVerdict([b], Fail) == 1 && Fails([b]) == [b];
  }
}
