/** Concurrent callers of advance on one loop, in any number of processes
    (core/consultant/fidelity_service.py:166-207 and 297-384, core/consultant/fidelity_store.py:200-225).
    Each database statement is one action. */
module FidelityClaims {
  import opened Wrappers
  import opened CheckResults
  import opened FidelityLoop

  type Caller = nat

  /** Where a caller of advance stands; rec is its own copy of the row. */
  datatype Stage =
    | Out
    | HasRead(rec: Loop)
    | Claimed(rec: Loop, current: bool)
    | Appended(rec: Loop, outcome: Loop)

  /** current lists, for each recorded round after the baseline, whether its caller's record
      was still current at its claim; staleWrite tells whether any caller whose record was not has written
      a row or a round, unsaved whether any round was recorded whose outcome the row never got. No action
      reads them. */
  datatype Shared = Shared(
    row: Loop, rounds: seq<Round>, stages: map<Caller, Stage>, current: seq<bool>, staleWrite: bool, unsaved: bool)

  datatype Action =
    | ReadRow(c: Caller)
    | Claim(c: Caller)
    | Escape(c: Caller)                     // outside the guarded part, or a write that fails: the row stays
    | SaveProgress(c: Caller, status: LoopStatus)
    | RaiseInRound(c: Caller, error: string)
    | StopWithoutPlan(c: Caller, status: LoopStatus)
    | Append(c: Caller, asset: AssetId, results: seq<CheckResult>)
    | Finish(c: Caller)
    | AutoStart(c: Caller)                  // the auto-continue path of start_loop: a round without a claim

  function At(s: Shared, c: Caller): Stage { if c in s.stages then s.stages[c] else Out }

  predicate Busy(s: Shared, c: Caller) { At(s, c).Claimed? || At(s, c).Appended? }

  predicate Working(s: LoopStatus) { s == BuildingMask || s == Refining || s == Critiquing }

  predicate Enabled(s: Shared, a: Action)
  {
    match a
    case ReadRow(c) => At(s, c) == Out
    case Claim(c) => At(s, c).HasRead?
    case Escape(c) => Busy(s, c)
    case SaveProgress(c, status) => At(s, c).Claimed? && Working(status)
    case RaiseInRound(c, _) => At(s, c).Claimed?
    case StopWithoutPlan(c, status) => At(s, c).Claimed? && (status == StoppedUnverified || status == Passed)
    case Append(c, _, _) => At(s, c).Claimed?
    case Finish(c) => At(s, c).Appended?
    case AutoStart(c) => At(s, c) == Out && Awaiting(s.row.status)
  }

  function Move(s: Shared, c: Caller, stage: Stage): Shared { s.(stages := s.stages[c := stage]) }

  function Writes(s: Shared, writer: Stage): Shared
    requires writer.Claimed?
  {
    s.(staleWrite := s.staleWrite || !writer.current)
  }

  function Step(s: Shared, a: Action): Shared
    requires Enabled(s, a)
  {
    match a
    case ReadRow(c) => if Awaiting(s.row.status) then Move(s, c, HasRead(s.row)) else s
    case Claim(c) =>
      if Awaiting(s.row.status) then
        Move(s, c, Claimed(At(s, c).rec, At(s, c).rec.currentRound == s.row.currentRound))
          .(row := s.row.(status := BuildingMask))
      else Move(s, c, Out)
    case Escape(c) => Move(s, c, Out).(unsaved := s.unsaved || At(s, c).Appended?)
    case SaveProgress(c, status) =>
      var rec := At(s, c).rec.(status := status);
      Writes(Move(s, c, Claimed(rec, At(s, c).current)).(row := rec), At(s, c))
    case RaiseInRound(c, error) =>
      Writes(Move(s, c, Out).(row := At(s, c).rec.(status := LoopFailed, lastError := Some(error))), At(s, c))
    case StopWithoutPlan(c, status) =>
      Writes(Move(s, c, Out).(row := At(s, c).rec.(status := status)), At(s, c))
    case Append(c, asset, results) =>
      var rec := At(s, c).rec;
      var after := RecordRound(Run(rec, s.rounds), rec.currentRound + 1, asset, results, rec.bestPassCount);
      Writes(Move(s, c, Appended(rec, after.loop)).(rounds := after.rounds, current := s.current + [At(s, c).current]),
             At(s, c))
    case Finish(c) => Move(s, c, Out).(row := At(s, c).outcome)
    case AutoStart(c) => Move(s, c, Claimed(s.row, true))
  }

  ghost predicate Possible(s: Shared, actions: seq<Action>)
    decreases |actions|
  {
    actions == [] || (Enabled(s, actions[0]) && Possible(Step(s, actions[0]), actions[1..]))
  }

  ghost function After(s: Shared, actions: seq<Action>): Shared
    requires Possible(s, actions)
    decreases |actions|
  {
    if actions == [] then s else After(Step(s, actions[0]), actions[1..])
  }

  ghost predicate OnlyAdvance(actions: seq<Action>)
  {
    forall i | 0 <= i < |actions| :: !actions[i].AutoStart?
  }

  lemma OnlyAdvanceSplits(actions: seq<Action>)
    requires OnlyAdvance(actions) && actions != []
    ensures !actions[0].AutoStart? && OnlyAdvance(actions[1..])
  {
    forall i | 0 <= i < |actions[1..]| ensures !actions[1..][i].AutoStart? {
      assert actions[1..][i] == actions[i + 1];
    }
  }

  // ----- exclusion -------------------------------------------------------------------------

  /** At most one caller is between its claim and its final write, and then the row's status admits no other. */
  ghost predicate Exclusive(s: Shared)
  {
    && (forall c, d | Busy(s, c) && Busy(s, d) :: c == d)
    && (forall c | Busy(s, c) :: Working(s.row.status))
  }

  lemma StepKeepsExclusion(s: Shared, a: Action)
    requires Exclusive(s) && Enabled(s, a) && !a.AutoStart?
    ensures Exclusive(Step(s, a))
  {
    var t := Step(s, a);
    forall d | d != a.c ensures Busy(t, d) <==> Busy(s, d) {
      assert At(t, d) == At(s, d);
    }
    if Busy(t, a.c) {
      // the caller was busy before, or it has just claimed an awaiting loop, which had no busy caller
      assert Busy(s, a.c) || Awaiting(s.row.status);
      forall d | Busy(t, d) ensures d == a.c {
        assert d == a.c || Busy(s, d);
      }
    } else {
      // a caller that stops being busy was the only one; any other leaves the row alone
      assert !Busy(s, a.c) ==> t.row == s.row;
      forall d | Busy(t, d) ensures Busy(s, d) && !Busy(s, a.c) {
        assert d != a.c && Busy(s, d);
      }
    }
  }

  lemma {:induction false} AdvanceIsExclusive(s: Shared, actions: seq<Action>)
    requires Exclusive(s) && Possible(s, actions) && OnlyAdvance(actions)
    ensures Exclusive(After(s, actions))
    decreases |actions|
  {
    if actions != [] {
      OnlyAdvanceSplits(actions);
      StepKeepsExclusion(s, actions[0]);
      AdvanceIsExclusive(Step(s, actions[0]), actions[1..]);
    }
  }

  // ----- round indices ----------------------------------------------------------------------

  /** Round indices are 0, 1, 2, ..., each once. */
  ghost predicate Sequential(rounds: seq<Round>)
  {
    forall i | 0 <= i < |rounds| :: rounds[i].index == i
  }

  ghost predicate AllCurrent(current: seq<bool>)
  {
    forall i | 0 <= i < |current| :: current[i]
  }

  /** Nobody runs a round. */
  ghost predicate Unclaimed(s: Shared)
  {
    forall c :: !Busy(s, c)
  }

  ghost predicate IndexInv(s: Shared)
  {
    && Exclusive(s)
    && s.rounds != []
    && (Sequential(s.rounds) <==> AllCurrent(s.current))
    && (!s.staleWrite ==> AllCurrent(s.current))
    && (AllCurrent(s.current) ==> forall c :: StageOk(s, c))
    && (AllCurrent(s.current) ==> RowOk(s))
  }

  /** What a caller's record says of the rounds, as long as these are sequential. */
  ghost predicate StageOk(s: Shared, c: Caller)
  {
    var stage := At(s, c);
    && (stage.Claimed? ==> (stage.current <==> stage.rec.currentRound == |s.rounds| - 1))
    && (stage.Claimed? && s.staleWrite ==> !stage.current)
    && (s.unsaved ==> !Busy(s, c))
    && (stage.Appended? ==> !s.staleWrite && stage.outcome.currentRound == |s.rounds| - 1)
  }

  /** The row is at the last round unless a round has been recorded and the row not yet written, or never will be, or a
      stale record has been written over it; in the last two cases no caller can claim the loop any more. */
  ghost predicate RowOk(s: Shared)
  {
    if s.staleWrite || s.unsaved then s.row.currentRound != |s.rounds| - 1 && !Awaiting(s.row.status)
    else if exists c :: At(s, c).Appended? then s.row.currentRound == |s.rounds| - 2
    else s.row.currentRound == |s.rounds| - 1
  }

  lemma AppendKeepsIndexInv(s: Shared, c: Caller, asset: AssetId, results: seq<CheckResult>)
    requires IndexInv(s) && At(s, c).Claimed?
    ensures IndexInv(Step(s, Append(c, asset, results)))
  {
    var t := Step(s, Append(c, asset, results));
    StepKeepsExclusion(s, Append(c, asset, results));
    var k, m := |s.rounds|, |s.current|;
    assert t.rounds[..k] == s.rounds && t.current[..m] == s.current;
    assert t.current[m] == At(s, c).current && t.rounds[k].index == At(s, c).rec.currentRound + 1;
    assert forall i | 0 <= i < k :: t.rounds[i] == s.rounds[i];
    assert forall i | 0 <= i < m :: t.current[i] == s.current[i];
    assert Sequential(t.rounds) <==> Sequential(s.rounds) && t.rounds[k].index == k;
    assert AllCurrent(t.current) <==> AllCurrent(s.current) && t.current[m];
    assert Busy(s, c) && At(t, c).Appended?;
    assert AllCurrent(s.current) ==> StageOk(s, c);
    forall d ensures !At(s, d).Appended? {
      assert d != c ==> !Busy(s, d);
    }
    forall d | d != c ensures !At(t, d).Claimed? && !At(t, d).Appended? {
      assert At(t, d) == At(s, d) && !Busy(s, d);
    }
  }

  lemma StepKeepsIndexInv(s: Shared, a: Action)
    requires IndexInv(s) && Enabled(s, a) && !a.AutoStart?
    ensures IndexInv(Step(s, a))
  {
    StepKeepsExclusion(s, a);
    if a.Append? {
      AppendKeepsIndexInv(s, a.c, a.asset, a.results);
    } else {
      OtherStepKeepsIndexInv(s, a);
    }
  }

  lemma OtherStepKeepsIndexInv(s: Shared, a: Action)
    requires IndexInv(s) && Enabled(s, a) && !a.AutoStart? && !a.Append?
    requires Exclusive(Step(s, a))
    ensures IndexInv(Step(s, a))
  {
    var t := Step(s, a);
    assert t.rounds == s.rounds && t.current == s.current;
    if AllCurrent(s.current) {
      if Awaiting(s.row.status) {
        forall d ensures !At(s, d).Appended? {
          assert !Busy(s, d);
        }
      }
      forall d ensures StageOk(t, d) {
        assert StageOk(s, d) && StageOk(s, a.c);
        if d != a.c {
          assert At(t, d) == At(s, d);
          assert Busy(s, a.c) ==> !Busy(s, d);
        }
      }
      RowStaysOk(s, a);
    }
  }

  lemma RowStaysOk(s: Shared, a: Action)
    requires IndexInv(s) && Enabled(s, a) && !a.AutoStart? && !a.Append? && AllCurrent(s.current)
    ensures RowOk(Step(s, a))
  {
    var t := Step(s, a);
    assert StageOk(s, a.c);
    assert forall d | d != a.c :: At(t, d) == At(s, d);
    if Busy(s, a.c) {
      forall d | d != a.c ensures !At(s, d).Appended? && !At(t, d).Appended? {
        assert !Busy(s, d);
      }
    } else if exists d :: At(s, d).Appended? {
      var d :| At(s, d).Appended?;
      assert Busy(s, d) && At(t, d).Appended?;
    }
  }

  /** A loop that has just been started: one round, and nobody is advancing it. */
  ghost predicate JustStarted(s: Shared)
  {
    && |s.rounds| == 1 && s.rounds[0].index == 0
    && s.row.currentRound == 0
    && s.current == [] && !s.staleWrite && !s.unsaved && s.stages == map[]
  }

  /** In every interleaving of advance callers at most one runs a round at a time, and the recorded indices are
      exactly 0, 1, 2, ... if and only if every round's caller claimed with a record that was still current. While
      nobody runs a round they are exactly 0..current_round if and only if no stale record was ever written and the row
      got the outcome of every recorded round. */
  lemma IndicesAreSequentialIffRecordsWereCurrent(s: Shared, actions: seq<Action>)
    requires JustStarted(s) && Possible(s, actions) && OnlyAdvance(actions)
    ensures Exclusive(After(s, actions))
    ensures Sequential(After(s, actions).rounds) <==> AllCurrent(After(s, actions).current)
    ensures var t := After(s, actions);
      Unclaimed(t) ==> (Sequential(t.rounds) && t.row.currentRound == |t.rounds| - 1 <==> !t.staleWrite && !t.unsaved)
  {
    assert IndexInv(s);
    EveryInterleavingKeepsIndexInv(s, actions);
    var t := After(s, actions);
    assert Unclaimed(t) ==> forall c :: !At(t, c).Appended? by {
      assert forall c :: At(t, c).Appended? ==> Busy(t, c);
    }
  }

  lemma {:induction false} EveryInterleavingKeepsIndexInv(s: Shared, actions: seq<Action>)
    requires IndexInv(s) && Possible(s, actions) && OnlyAdvance(actions)
    ensures IndexInv(After(s, actions))
    decreases |actions|
  {
    if actions != [] {
      OnlyAdvanceSplits(actions);
      StepKeepsIndexInv(s, actions[0]);
      EveryInterleavingKeepsIndexInv(Step(s, actions[0]), actions[1..]);
    }
  }

  // ----- loops that nobody can advance any more -----------------------------------------------

  /** Not awaiting a round, and no round under way. */
  ghost predicate AtRest(s: Shared)
  {
    !Awaiting(s.row.status) && forall c :: !Busy(s, c)
  }

  lemma {:induction false} RestIsPermanent(s: Shared, actions: seq<Action>)
    requires AtRest(s) && Possible(s, actions)
    ensures After(s, actions).row == s.row && After(s, actions).rounds == s.rounds && AtRest(After(s, actions))
    decreases |actions|
  {
    if actions != [] {
      var a := actions[0];
      var t := Step(s, a);
      assert !Busy(s, a.c);
      forall d ensures !Busy(t, d) {
        assert !Busy(s, d);
      }
      RestIsPermanent(t, actions[1..]);
    }
  }

  /** An exception outside the guarded part, between the claim and the last write, leaves the loop in a working status
      for ever: it never reaches a terminal one and no caller can claim it again. */
  lemma EscapedExceptionStrandsTheLoop(s: Shared, c: Caller, actions: seq<Action>)
    requires Exclusive(s) && Busy(s, c)
    requires Possible(Step(s, Escape(c)), actions)
    ensures var t := After(Step(s, Escape(c)), actions);
      Working(t.row.status) && !Terminal(t.row.status) && t.rounds == s.rounds
  {
    var t := Step(s, Escape(c));
    assert Busy(s, c);
    forall d ensures !Busy(t, d) {
      if Busy(t, d) {
        assert Busy(s, d);
      }
    }
    RestIsPermanent(t, actions);
  }

  /** Neither awaiting nor terminal, and nobody is at work on it. */
  ghost predicate Stranded(s: Shared)
  {
    !Awaiting(s.row.status) && !Terminal(s.row.status) && Unclaimed(s)
  }

  /** A recorded round always leads to an awaiting or terminal status. */
  ghost predicate OutcomesDecided(s: Shared)
  {
    forall c | At(s, c).Appended? :: Awaiting(At(s, c).outcome.status) || Terminal(At(s, c).outcome.status)
  }

  lemma StepKeepsOutcomes(s: Shared, a: Action)
    requires OutcomesDecided(s) && Enabled(s, a)
    ensures OutcomesDecided(Step(s, a))
  {
    var t := Step(s, a);
    forall d | At(t, d).Appended? ensures Awaiting(At(t, d).outcome.status) || Terminal(At(t, d).outcome.status) {
      assert d != a.c ==> At(t, d) == At(s, d);
    }
  }

  lemma StepStrandsIff(s: Shared, a: Action)
    requires Exclusive(s) && OutcomesDecided(s) && !Stranded(s) && Enabled(s, a) && !a.AutoStart?
    ensures Stranded(Step(s, a)) <==> a.Escape?
  {
    var t := Step(s, a);
    assert forall d | d != a.c :: At(t, d) == At(s, d);
    if a.Escape? {
      assert Busy(s, a.c);
      forall d ensures !Busy(t, d) {
        assert d != a.c ==> !Busy(s, d);
      }
    } else if Busy(t, a.c) {
      assert !Unclaimed(t);
    } else if Busy(s, a.c) {
      match a {
        case Finish(c) => assert Awaiting(At(s, c).outcome.status) || Terminal(At(s, c).outcome.status);
        case RaiseInRound(c, error) => assert t.row.status == LoopFailed;
        case StopWithoutPlan(c, status) => assert t.row.status == status;
        case _ =>
      }
    } else if !Awaiting(s.row.status) && !Terminal(s.row.status) {
      var d :| Busy(s, d);
      assert Busy(t, d);
    }
  }

  ghost predicate Escapes(actions: seq<Action>)
  {
    exists i :: 0 <= i < |actions| && actions[i].Escape?
  }

  /** A loop that nobody runs is awaiting or terminal, if and only if no exception has escaped. */
  lemma {:induction false} StrandedIffSomeoneEscaped(s: Shared, actions: seq<Action>)
    requires Exclusive(s) && OutcomesDecided(s) && !Stranded(s)
    requires Possible(s, actions) && OnlyAdvance(actions)
    ensures Stranded(After(s, actions)) <==> Escapes(actions)
    decreases |actions|
  {
    if actions != [] {
      var a, rest := actions[0], actions[1..];
      OnlyAdvanceSplits(actions);
      StepStrandsIff(s, a);
      StepKeepsExclusion(s, a);
      StepKeepsOutcomes(s, a);
      EscapesSplits(actions);
      if a.Escape? {
        RestIsPermanent(Step(s, a), rest);
      } else {
        StrandedIffSomeoneEscaped(Step(s, a), rest);
      }
    }
  }

  lemma EscapesSplits(actions: seq<Action>)
    requires actions != []
    ensures Escapes(actions) <==> actions[0].Escape? || Escapes(actions[1..])
  {
    if Escapes(actions[1..]) {
      var i :| 0 <= i < |actions[1..]| && actions[1..][i].Escape?;
      assert actions[i + 1].Escape?;
    }
    if Escapes(actions) {
      var i :| 0 <= i < |actions| && actions[i].Escape?;
      assert i > 0 ==> actions[1..][i - 1].Escape?;
    }
  }

  // ----- the ways in which the promise fails ------------------------------------------------

  function Started(row: Loop, first: Round): Shared { Shared(row, [first], map[], [], false, false) }

  lemma {:induction false} OneMore(s: Shared, actions: seq<Action>, a: Action)
    requires Possible(s, actions) && Enabled(After(s, actions), a)
    ensures Possible(s, actions + [a])
    ensures After(s, actions + [a]) == Step(After(s, actions), a)
    decreases |actions|
  {
    if actions == [] {
      assert [a][1..] == [];
      assert actions + [a] == [a];
    } else {
      assert (actions + [a])[1..] == actions[1..] + [a];
      OneMore(Step(s, actions[0]), actions[1..], a);
    }
  }

  /** A caller that finishes a round with one more failed check, from the record it claimed with. */
  lemma FailedRoundAwaitsAnother(s: Shared, c: Caller, asset: AssetId, fail: CheckResult)
    requires At(s, c).Claimed? && fail.verdict == Verdict.Fail && !fail.passed
    requires At(s, c).rec.currentRound == 0 && At(s, c).rec.maxRounds == 4 && At(s, c).rec.bestPassCount == 0
    ensures var t := Step(s, Append(c, asset, [fail]));
      At(t, c).Appended? && Awaiting(At(t, c).outcome.status)
      && |t.rounds| == |s.rounds| + 1 && t.rounds[|s.rounds|].index == 1
      && s.rounds <= t.rounds
  {
    assert [fail][1..] == [];
    assert CountPassed([fail]) == 0 && CountVerdict([fail], Verdict.Fail) == 1;
  }

  /** A caller that nobody interferes with runs exactly the refine round of the loop as it was: its outcome and the new
      round are those of the sequential service, and so is its failure. */
  lemma AdvanceAloneIsARefineRound(s: Shared, c: Caller, reply: Reply) returns (actions: seq<Action>)
    requires s.rounds != [] && Awaiting(s.row.status) && At(s, c) == Out && !reply.ImageUnreadable?
    requires Fails(NextTarget(Run(s.row, s.rounds)).1.results) != []
    ensures Possible(s, actions) && OnlyAdvance(actions)
    ensures var t := After(s, actions);
      && Run(t.row, t.rounds) == RefineRound(Run(s.row, s.rounds), reply)
      && At(t, c) == Out && (forall d | d != c :: At(t, d) == At(s, d))
      && t.staleWrite == s.staleWrite && t.unsaved == s.unsaved
  {
    actions := ClaimAlone(s, c);
    match reply {
      case Raised(e) =>
        actions := Then(s, actions, RaiseInRound(c, e));
      case Critiqued(asset, results) =>
        actions := FinishAlone(s, actions, c, asset, results);
        RefineIsRecord(Run(s.row, s.rounds), asset, results);
    }
  }

  lemma ClaimAlone(s: Shared, c: Caller) returns (actions: seq<Action>)
    requires Awaiting(s.row.status) && At(s, c) == Out
    ensures Possible(s, actions) && OnlyAdvance(actions)
    ensures var t := After(s, actions);
      && At(t, c) == Claimed(s.row, true) && (forall d | d != c :: At(t, d) == At(s, d))
      && t.rounds == s.rounds && t.staleWrite == s.staleWrite && t.unsaved == s.unsaved
  {
    actions := [];
    actions := Then(s, actions, ReadRow(c));
    actions := Then(s, actions, Claim(c));
  }

  lemma FinishAlone(s: Shared, actions: seq<Action>, c: Caller, asset: AssetId, results: seq<CheckResult>)
    returns (more: seq<Action>)
    requires Possible(s, actions) && OnlyAdvance(actions)
    requires At(After(s, actions), c).Claimed? && At(After(s, actions), c).current
    ensures Possible(s, more) && OnlyAdvance(more)
    ensures var t, u := After(s, actions), After(s, more);
      var rec := At(t, c).rec;
      && Run(u.row, u.rounds)
         == RecordRound(Run(rec.(status := Critiquing), t.rounds), rec.currentRound + 1, asset, results,
                        rec.bestPassCount)
      && At(u, c) == Out && (forall d | d != c :: At(u, d) == At(t, d))
      && u.staleWrite == t.staleWrite && u.unsaved == t.unsaved
  {
    more := Then(s, actions, SaveProgress(c, Critiquing));
    more := Then(s, more, Append(c, asset, results));
    more := Then(s, more, Finish(c));
  }

  lemma RefineIsRecord(run: Run, asset: AssetId, results: seq<CheckResult>)
    requires run.rounds != [] && Fails(NextTarget(run).1.results) != []
    ensures RefineRound(run, Critiqued(asset, results))
         == RecordRound(run.(loop := run.loop.(status := Critiquing)), run.loop.currentRound + 1, asset, results,
                        run.loop.bestPassCount)
  {
  }

  /** Two callers read the row of a fresh loop, and the first completes a round; the second holds a stale record. */
  lemma OneReadsBeforeTheOtherAdvances(first: Round, fail: CheckResult) returns (s: Shared, actions: seq<Action>)
    requires first.index == 0 && fail.verdict == Verdict.Fail && !fail.passed
    ensures JustStarted(s) && Possible(s, actions) && OnlyAdvance(actions)
    ensures var t := After(s, actions);
      && Awaiting(t.row.status) && |t.rounds| == 2 && t.rounds[0] == first && t.rounds[1].index == 1
      && At(t, 1) == HasRead(Loop("root", AwaitingUser, 0, 4, "root", 0, None))
      && forall d | d != 1 :: At(t, d) == Out
  {
    var row := Loop("root", AwaitingUser, 0, 4, "root", 0, None);
    s := Started(row, first);
    actions := [];
    actions := Then(s, actions, ReadRow(0));
    actions := Then(s, actions, ReadRow(1));
    actions := Then(s, actions, Claim(0));
    var t := After(s, actions);
    assert t.rounds == [first] && At(t, 0) == Claimed(row, true) && At(t, 1) == HasRead(row);
    assert forall d | d > 1 :: At(t, d) == Out;
    actions := OneFailedRound(s, actions, 0, "a", fail);
    assert After(s, actions).rounds[0] == first;
  }

  /** The second caller then claims with its stale record: the round index 1 is recorded twice. */
  lemma StaleRecordRepeatsAnIndex(first: Round, fail: CheckResult) returns (s: Shared, actions: seq<Action>)
    requires first.index == 0 && fail.verdict == Verdict.Fail && !fail.passed
    ensures JustStarted(s) && Possible(s, actions) && OnlyAdvance(actions)
    ensures var t := After(s, actions); |t.rounds| == 3 && t.rounds[1].index == 1 && t.rounds[2].index == 1
  {
    s, actions := OneReadsBeforeTheOtherAdvances(first, fail);
    actions := Then(s, actions, Claim(1));
    actions := OneFailedRound(s, actions, 1, "b", fail);
  }

  /** A caller that has claimed with a record of the baseline records round 1 and lets the loop go on. */
  lemma OneFailedRound(s: Shared, actions: seq<Action>, c: Caller, asset: AssetId, fail: CheckResult)
    returns (more: seq<Action>)
    requires Possible(s, actions) && fail.verdict == Verdict.Fail && !fail.passed
    requires var t := After(s, actions);
      && At(t, c).Claimed? && At(t, c).rec.currentRound == 0
      && At(t, c).rec.maxRounds == 4 && At(t, c).rec.bestPassCount == 0
    ensures actions <= more && Possible(s, more)
    ensures OnlyAdvance(actions) ==> OnlyAdvance(more)
    ensures var t, u := After(s, actions), After(s, more);
      && Awaiting(u.row.status) && At(u, c) == Out && (forall d | d != c :: At(u, d) == At(t, d))
      && |u.rounds| == |t.rounds| + 1 && t.rounds <= u.rounds && u.rounds[|t.rounds|].index == 1
  {
    FailedRoundAwaitsAnother(After(s, actions), c, asset, fail);
    more := Then(s, actions, Append(c, asset, [fail]));
    more := Then(s, more, Finish(c));
  }

  lemma Then(s: Shared, actions: seq<Action>, a: Action) returns (more: seq<Action>)
    requires Possible(s, actions) && Enabled(After(s, actions), a)
    ensures more == actions + [a] && Possible(s, more) && After(s, more) == Step(After(s, actions), a)
    ensures OnlyAdvance(actions) && !a.AutoStart? ==> OnlyAdvance(more)
  {
    OneMore(s, actions, a);
    more := actions + [a];
  }

  /** Or its round fails: every recorded round was claimed with a current record, the indices are sequential, and yet
      the row falls back behind the last round. */
  lemma StaleFailureFallsBehind(first: Round, fail: CheckResult) returns (s: Shared, actions: seq<Action>)
    requires first.index == 0 && fail.verdict == Verdict.Fail && !fail.passed
    ensures JustStarted(s) && Possible(s, actions) && OnlyAdvance(actions)
    ensures var t := After(s, actions);
      && Sequential(t.rounds) && |t.rounds| == 2 && t.row.currentRound == 0 && t.row.status == LoopFailed
      && Unclaimed(t)
  {
    s, actions := OneReadsBeforeTheOtherAdvances(first, fail);
    var t := After(s, actions);
    actions := Then(s, actions, Claim(1));
    actions := Then(s, actions, RaiseInRound(1, "error"));
    forall d ensures At(After(s, actions), d) == Out {
      assert d != 1 ==> At(Step(t, Claim(1)), d) == At(t, d);
    }
  }

  /** The auto-continue path of start_loop runs its rounds without a claim: whenever a round is awaited, a caller of
      advance can claim the very round that auto-continue is running. */
  lemma AutoContinueIsNotExclusive(s: Shared, auto: Caller, c: Caller) returns (actions: seq<Action>)
    requires Awaiting(s.row.status) && auto != c && At(s, auto) == Out && At(s, c) == Out
    ensures Possible(s, actions)
    ensures Busy(After(s, actions), auto) && Busy(After(s, actions), c)
  {
    actions := [];
    actions := Then(s, actions, AutoStart(auto));
    actions := Then(s, actions, ReadRow(c));
    actions := Then(s, actions, Claim(c));
  }
}
