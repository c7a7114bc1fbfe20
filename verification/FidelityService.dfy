/** The loop record, its store and the service that runs rounds on them
    (core/consultant/fidelity_service.py:256-409, core/consultant/fidelity_store.py:184-305). */
module FidelityService {
  import opened Wrappers
  import opened CheckResults
  import opened RepairPlanner
  import opened FidelityLoop

  /** The two tables of one loop; each method is one statement. */
  class FidelityStore {
    var row: Loop
    var rounds: seq<Round>

    constructor (root: AssetId, maxRounds: int)
      ensures Run(row, rounds) == Created(root, maxRounds)
    {
      row := Created(root, maxRounds).loop;
      rounds := [];
    }

    method SaveLoop(loop: Loop)
      modifies this`row
      ensures row == loop
    {
      row := loop;
    }

    /** True exactly when the status was allowed, and then only the status changes. */
    method ClaimRound(allowed: set<LoopStatus>, claim: LoopStatus) returns (claimed: bool)
      modifies this`row
      ensures claimed <==> old(row).status in allowed
      ensures row == if claimed then old(row).(status := claim) else old(row)
    {
      if row.status in allowed {
        row := row.(status := claim);
        return true;
      }
      return false;
    }

    method AppendRound(index: int, asset: AssetId, results: seq<CheckResult>, passCount: nat, failCount: nat)
      modifies this`rounds
      ensures rounds == old(rounds) + [Round(index, asset, results, passCount, failCount)]
    {
      rounds := rounds + [Round(index, asset, results, passCount, failCount)];
    }

    /** A recorded round that no other round's index exceeds. The statement leaves open which of several rounds with
        that index it returns; here it is the one recorded last. */
    method Latest() returns (r: Option<Round>)
      ensures r.None? <==> rounds == []
      ensures r.Some? ==> r.value in rounds && forall q | q in rounds :: q.index <= r.value.index
      ensures r.Some? ==> r.value == LatestRound(rounds)
    {
      if rounds != [] {
        LatestRoundIsNewest(rounds);
      }
      return if rounds == [] then None else Some(LatestRound(rounds));
    }
  }

  /** The caller's copy of a loop row. */
  class LoopRecord {
    const root: AssetId
    const maxRounds: int
    var status: LoopStatus
    var currentRound: int
    var bestAsset: AssetId
    var bestPassCount: int
    var lastError: Option<string>

    constructor (loop: Loop)
      ensures View() == loop
    {
      root, maxRounds := loop.root, loop.maxRounds;
      status, currentRound, bestAsset := loop.status, loop.currentRound, loop.bestAsset;
      bestPassCount, lastError := loop.bestPassCount, loop.lastError;
    }

    function View(): Loop
      reads this
    {
      Loop(root, status, currentRound, maxRounds, bestAsset, bestPassCount, lastError)
    }
  }

  method ApplyOutcome(store: FidelityStore, loop: LoopRecord, outcome: RoundOutcome, index: int)
    modifies store`row, loop
    ensures loop.View() == old(loop.View()).(
      status := outcome.status, currentRound := index,
      bestAsset := outcome.bestAsset, bestPassCount := outcome.bestPassCount)
    ensures store.row == loop.View()
  {
    loop.status := outcome.status;
    loop.currentRound := index;
    loop.bestAsset := outcome.bestAsset;
    loop.bestPassCount := outcome.bestPassCount;
    store.SaveLoop(loop.View());
  }

  method Fail(store: FidelityStore, loop: LoopRecord, error: string)
    modifies store`row, loop
    ensures loop.View() == old(loop.View()).(status := LoopFailed, lastError := Some(error))
    ensures store.row == loop.View()
  {
    loop.status := LoopFailed;
    loop.lastError := Some(error);
    store.SaveLoop(loop.View());
  }

  method RecordCritique(store: FidelityStore, loop: LoopRecord, index: int, asset: AssetId, results: seq<CheckResult>,
                        bestPass: int)
    modifies store, loop
    ensures Run(loop.View(), store.rounds)
         == RecordRound(old(Run(loop.View(), store.rounds)), index, asset, results, bestPass)
    ensures store.row == loop.View()
  {
    var pass := CountPassed(results);
    CountPassedBound(results);
    store.AppendRound(index, asset, results, pass, |results| - pass);
    var fails, unverified := CountVerdict(results, CheckResults.Fail), CountVerdict(results, Unverified);
    var outcome := DecideRoundOutcome(asset, pass, fails, unverified, index, loop.maxRounds, loop.bestAsset, bestPass);
    ApplyOutcome(store, loop, outcome, index);
  }

  method RunBaselineCritique(store: FidelityStore, loop: LoopRecord, reply: Reply) returns (raised: bool)
    modifies store, loop
    ensures Run(loop.View(), store.rounds) == Baseline(old(Run(loop.View(), store.rounds)), reply)
    ensures store.row == loop.View()
    ensures raised <==> !reply.Critiqued?
  {
    match reply {
      case ImageUnreadable => Fail(store, loop, "unreadable"); return true;
      case Raised(e) => Fail(store, loop, e); return true;
      case Critiqued(_, results) =>
        RecordCritique(store, loop, 0, loop.root, results, INITIAL_BEST_PASS_COUNT);
        return false;
    }
  }

  /** The statuses a planned round goes through, each saved; the row ends as the record. */
  method PassThroughStages(store: FidelityStore, loop: LoopRecord)
    modifies store`row, loop
    ensures loop.View() == old(loop.View()).(status := Critiquing)
    ensures store.row == loop.View()
  {
    loop.status := BuildingMask;
    store.SaveLoop(loop.View());
    loop.status := Refining;
    store.SaveLoop(loop.View());
    loop.status := Critiquing;
    store.SaveLoop(loop.View());
  }

  /** The asset a round works on and the round it plans from. */
  method FindTarget(store: FidelityStore, loop: LoopRecord) returns (target: AssetId, source: Round)
    requires store.rounds != []
    ensures (target, source) == NextTarget(Run(loop.View(), store.rounds))
    ensures Targets(Run(loop.View(), store.rounds), target, source)
  {
    NextTargetTargets(Run(loop.View(), store.rounds));
    var latest := store.Latest();
    if loop.status == StoppedRegressionRecovered {
      target := loop.bestAsset;
      var found := LastForAsset(ListRounds(store.rounds), target);
      source := if found.Some? then found.value else latest.value;
    } else {
      target, source := latest.value.asset, latest.value;
    }
  }

  /** One refine round on the caller's record, with the asset it worked on and the round it planned from; the row
      follows it unless the target image cannot be read. */
  method RunRefineRound(store: FidelityStore, loop: LoopRecord, reply: Reply)
    returns (raised: bool, target: AssetId, source: Round)
    requires store.rounds != []
    modifies store, loop
    ensures Run(loop.View(), store.rounds) == RefineRound(old(Run(loop.View(), store.rounds)), reply)
    ensures (target, source) == NextTarget(old(Run(loop.View(), store.rounds)))
    ensures Targets(old(Run(loop.View(), store.rounds)), target, source)
    ensures Refined(old(Run(loop.View(), store.rounds)), Run(loop.View(), store.rounds), source, reply, raised)
    ensures reply.ImageUnreadable? ==> store.row == old(store.row)
    ensures !reply.ImageUnreadable? ==> store.row == loop.View()
  {
    target, source := FindTarget(store, loop);
    ghost var before := Run(loop.View(), store.rounds);
    RefineRoundIsRefined(before, reply);
    raised := reply.ImageUnreadable?;
    if !raised {
      raised := PlanAndCritique(store, loop, reply, source);
    }
    assert Run(loop.View(), store.rounds) == RefineRound(before, reply);
  }

  /** The round once the target image has been read. */
  method PlanAndCritique(store: FidelityStore, loop: LoopRecord, reply: Reply, source: Round) returns (raised: bool)
    requires store.rounds != [] && !reply.ImageUnreadable? && source == NextTarget(Run(loop.View(), store.rounds)).1
    modifies store, loop
    ensures Run(loop.View(), store.rounds) == RefineRound(old(Run(loop.View(), store.rounds)), reply)
    ensures store.row == loop.View()
    ensures raised <==> reply.Raised? && Fails(source.results) != []
  {
    var index := loop.currentRound + 1;
    var plan := PlanRound(source.results);
    if plan.None? {
      loop.status := if CountVerdict(source.results, Unverified) > 0 then StoppedUnverified else Passed;
      store.SaveLoop(loop.View());
      return false;
    }
    PassThroughStages(store, loop);
    match reply {
      case Raised(e) =>
        Fail(store, loop, e);
        return true;
      case Critiqued(asset, results) =>
        RecordCritique(store, loop, index, asset, results, loop.bestPassCount);
        return false;
    }
  }

  /** One awaited round with a plan: it raises exactly when the critic does not answer. */
  method ContinueOnce(store: FidelityStore, loop: LoopRecord, reply: Reply) returns (raised: bool)
    requires store.rounds != [] && store.row == loop.View()
    requires Fails(NextTarget(Run(loop.View(), store.rounds)).1.results) != []
    modifies store, loop
    ensures Run(loop.View(), store.rounds) == RefineRound(old(Run(loop.View(), store.rounds)), reply)
    ensures store.row == loop.View()
    ensures raised <==> !reply.Critiqued?
  {
    NoFails(NextTarget(Run(loop.View(), store.rounds)).1.results);
    var target, source;
    raised, target, source := RunRefineRound(store, loop, reply);
  }

  /** The first m replies after the given number of rounds. */
  function Used(replies: nat -> Reply, rounds: nat, m: nat): (used: seq<Reply>)
    ensures |used| == m && forall k | 0 <= k < m :: used[k] == replies(rounds + k)
  {
    seq(m, k requires 0 <= k < m => replies(rounds + k))
  }

  /** The run after those replies. */
  function Continued(start: Run, replies: nat -> Reply, m: nat): (run: Run)
    requires start.rounds != []
  {
    RunRounds(start, Used(replies, |start.rounds|, m))
  }

  lemma ContinuedOneMore(start: Run, replies: nat -> Reply, m: nat)
    requires start.rounds != []
    ensures Continued(start, replies, m + 1)
         == RefineIfAwaited(Continued(start, replies, m), replies(|start.rounds| + m))
  {
    var used := Used(replies, |start.rounds|, m + 1);
    assert used[..m] == Used(replies, |start.rounds|, m);
  }

  /** Rounds are counted, and an awaited round is below the cap and can be planned. */
  ghost predicate Steady(run: Run)
  {
    && run.rounds != [] && |run.rounds| == run.loop.currentRound + 1 <= run.loop.maxRounds + 1
    && (if Awaiting(run.loop.status)
        then run.loop.currentRound < run.loop.maxRounds && Fails(NextTarget(run).1.results) != []
        else Terminal(run.loop.status))
  }

  ghost predicate StaysSteady(start: Run, replies: nat -> Reply)
  {
    start.rounds != [] && forall m: nat :: Steady(Continued(start, replies, m))
  }

  lemma InvMeansSteady(run: Run, n: nat)
    requires LoopInv(run, n)
    ensures Steady(run)
  {
    AwaitingIsBelowTheCap(run, n);
    if Awaiting(run.loop.status) {
      PlanAlwaysExists(run, n);
    }
  }

  /** The first m rounds were awaited and criticized. */
  ghost predicate Underway(start: Run, now: Run, replies: nat -> Reply, m: nat)
  {
    && start.rounds != [] && now == Continued(start, replies, m)
    && |now.rounds| == |start.rounds| + m
    && (m > 0 ==> Awaiting(start.loop.status) && now.loop.status != LoopFailed)
  }

  /** The run has ended with round m, by an exception or by a status that awaits no round. */
  ghost predicate Ended(start: Run, now: Run, replies: nat -> Reply, m: nat, raised: bool)
  {
    && start.rounds != [] && now == Continued(start, replies, m)
    && (m == 0 <==> !Awaiting(start.loop.status))
    && (if raised
        then
          && m > 0 && !replies(|start.rounds| + m - 1).Critiqued? && |now.rounds| == |start.rounds| + m - 1
          && (Awaiting(now.loop.status) ==> replies(|now.rounds|) == ImageUnreadable)
        else
          && Terminal(now.loop.status) && |now.rounds| == |start.rounds| + m
          && (m > 0 ==> now.loop.status != LoopFailed))
  }

  lemma UnderwayIsSteady(start: Run, now: Run, replies: nat -> Reply, m: nat)
    requires Underway(start, now, replies, m) && StaysSteady(start, replies)
    ensures 0 <= now.loop.currentRound
    ensures if Awaiting(now.loop.status) then now.loop.currentRound < now.loop.maxRounds
            else Ended(start, now, replies, m, false)
  {
    assert Steady(Continued(start, replies, m));
  }

  lemma OneMoreRound(start: Run, now: Run, replies: nat -> Reply, m: nat)
    requires Underway(start, now, replies, m) && Awaiting(now.loop.status)
    requires StaysSteady(start, replies)
    ensures Fails(NextTarget(now).1.results) != []
    ensures var reply := replies(|now.rounds|); var next := RefineRound(now, reply);
      if reply.Critiqued? then
        Underway(start, next, replies, m + 1) && next.loop.currentRound == now.loop.currentRound + 1
      else Ended(start, next, replies, m + 1, true)
  {
    assert Steady(now);
    ContinuedOneMore(start, replies, m);
  }

  /** Refines until no round is awaited. The guard never ends the loop: unless an image is unreadable the
      loop stops in a terminal status, after at most maxRounds refine rounds in all. The record and the rounds end
      as the run on the m replies that were used, and the row follows the record. */
  method RunAutoContinue(store: FidelityStore, loop: LoopRecord, replies: nat -> Reply, ghost n: nat)
    returns (raised: bool, ghost m: nat)
    requires LoopInv(Run(loop.View(), store.rounds), n) && store.row == loop.View()
    requires forall k :: Complete(replies(k), n)
    modifies store, loop
    ensures LoopInv(Run(loop.View(), store.rounds), n) && store.row == loop.View()
    ensures Run(loop.View(), store.rounds)
         == RunRounds(old(Run(loop.View(), store.rounds)), Used(replies, |old(store.rounds)|, m))
    ensures Ended(old(Run(loop.View(), store.rounds)), Run(loop.View(), store.rounds), replies, m, raised)
    ensures old(store.rounds) <= store.rounds && |store.rounds| <= loop.maxRounds + 1
  {
    ghost var start := Run(loop.View(), store.rounds);
    forall k: nat ensures Steady(Continued(start, replies, k)) {
      RunKeepsInv(start, Used(replies, |start.rounds|, k), n);
      InvMeansSteady(Continued(start, replies, k), n);
    }
    raised, m := ContinueToTheEnd(store, loop, replies);
    RunKeepsInv(start, Used(replies, |start.rounds|, m), n);
  }

  /** The loop itself, on any replies under which every round can be planned. */
  method ContinueToTheEnd(store: FidelityStore, loop: LoopRecord, replies: nat -> Reply)
    returns (raised: bool, ghost m: nat)
    requires StaysSteady(Run(loop.View(), store.rounds), replies) && store.row == loop.View()
    modifies store, loop
    ensures store.row == loop.View()
    ensures Ended(old(Run(loop.View(), store.rounds)), Run(loop.View(), store.rounds), replies, m, raised)
  {
    var guard := 0;
    ghost var start := Run(loop.View(), store.rounds);
    ghost var now := start;
    m := 0;
    UnderwayIsSteady(start, now, replies, m);
    while Awaiting(loop.status) && guard <= loop.maxRounds
      invariant now == Run(loop.View(), store.rounds) && store.row == loop.View()
      invariant Underway(start, now, replies, m)
      invariant 0 <= guard <= loop.currentRound
      decreases loop.maxRounds - loop.currentRound
    {
      guard := guard + 1;
      UnderwayIsSteady(start, now, replies, m);
      OneMoreRound(start, now, replies, m);
      var failed := ContinueOnce(store, loop, replies(|store.rounds|));
      now := Run(loop.View(), store.rounds);
      m := m + 1;
      if failed {
        return true, m;
      }
    }
    UnderwayIsSteady(start, now, replies, m);
    return false, m;
  }
}
