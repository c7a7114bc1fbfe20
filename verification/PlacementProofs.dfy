/** What the scheduler keeps over every run: budgets, the transition log, least-recently-used
    eviction and quiescence of ticks. */
module PlacementProofs {
  import opened Wrappers
  import opened Placement

  ghost predicate WithinBudgets(s: Sched)
  {
    && VramUsed(s) <= s.budget.vram
    && RamUsed(s) <= s.budget.ram
    && forall m | m in s.models :: m.vram <= s.budget.vram
  }

  ghost predicate Inv(s: Sched)
  {
    DistinctNames(s.models) && WithinBudgets(s)
  }

  // ----- the transition log ------------------------------------------------------------

  function States(models: seq<Model>): map<string, RuntimeState>
  {
    if models == [] then map[]
    else States(models[..|models| - 1])[models[|models| - 1].name := models[|models| - 1].state]
  }

  /** The states that a log leads to from the given ones. */
  function Replay(init: map<string, RuntimeState>, log: seq<Event>): map<string, RuntimeState>
  {
    if log == [] then init
    else Replay(init, log[..|log| - 1])[log[|log| - 1].name := log[|log| - 1].to]
  }

  predicate LegalEvent(at: map<string, RuntimeState>, e: Event)
  {
    e.name in at && at[e.name] == e.from && e.from != e.to && !(e.from == Cold && e.to == Warm)
  }

  /** Every event starts where the replay stands, changes the state and never goes Cold to Warm. */
  ghost predicate LegalLog(init: map<string, RuntimeState>, log: seq<Event>)
  {
    log == [] ||
    (LegalLog(init, log[..|log| - 1]) && LegalEvent(Replay(init, log[..|log| - 1]), log[|log| - 1]))
  }

  ghost predicate LogExplains(init: map<string, RuntimeState>, s: Sched)
  {
    && LegalLog(init, s.log)
    && Replay(init, s.log) == States(s.models)
  }

  lemma {:induction false} StatesLookup(models: seq<Model>)
    requires DistinctNames(models)
    ensures forall i | 0 <= i < |models| ::
      models[i].name in States(models) && States(models)[models[i].name] == models[i].state
    ensures forall n | n in States(models) :: exists i :: 0 <= i < |models| && models[i].name == n
  {
    if models != [] {
      StatesLookup(models[..|models| - 1]);
    }
  }

  lemma StatesAfterUpdate(models: seq<Model>, i: nat, m: Model)
    requires DistinctNames(models) && i < |models| && m.name == models[i].name
    ensures DistinctNames(models[i := m])
    ensures States(models[i := m]) == States(models)[m.name := m.state]
  {
    var next := models[i := m];
    forall n ensures n in States(next) <==> n in States(models) {
      if n in States(next) {
        var k := NameOfState(next, n);
        StateOfModel(models, k);
      }
      if n in States(models) {
        var k := NameOfState(models, n);
        StateOfModel(next, k);
      }
    }
    StateOfModel(models, i);
    forall n | n in States(next) ensures States(next)[n] == States(models)[m.name := m.state][n] {
      var k := NameOfState(next, n);
      StateOfModel(next, k);
      if k != i {
        StateOfModel(models, k);
      }
    }
  }

  lemma StateOfModel(models: seq<Model>, k: nat)
    requires DistinctNames(models) && k < |models|
    ensures models[k].name in States(models) && States(models)[models[k].name] == models[k].state
  {
    StatesLookup(models);
  }

  lemma NameOfState(models: seq<Model>, n: string) returns (k: nat)
    requires DistinctNames(models) && n in States(models)
    ensures k < |models| && models[k].name == n
  {
    StatesLookup(models);
    k :| 0 <= k < |models| && models[k].name == n;
  }

  lemma LogGrows(init: map<string, RuntimeState>, log: seq<Event>, e: Event)
    requires LegalLog(init, log) && LegalEvent(Replay(init, log), e)
    ensures LegalLog(init, log + [e]) && Replay(init, log + [e]) == Replay(init, log)[e.name := e.to]
  {
    assert (log + [e])[..|log|] == log;
  }

  // ----- one recorded transition ----------------------------------------------------------

  lemma RecordKeepsTheLog(
      init: map<string, RuntimeState>, s: Sched, i: nat, to: RuntimeState, reason: string, now: real)
    requires i < |s.models| && DistinctNames(s.models) && LogExplains(init, s)
    requires !(s.models[i].state == Cold && to == Warm)
    ensures DistinctNames(Record(s, i, to, reason, now).models)
    ensures LogExplains(init, Record(s, i, to, reason, now))
  {
    var m := s.models[i];
    if m.state != to {
      StatesLookup(s.models);
      LogGrows(init, s.log, Event(m.name, m.state, to, reason, now));
      StatesAfterUpdate(s.models, i, m.(state := to));
    }
  }

  lemma RecordChangesLoads(s: Sched, i: nat, to: RuntimeState, reason: string, now: real)
    requires i < |s.models|
    ensures var m := s.models[i]; var r := Record(s, i, to, reason, now);
      && VramUsed(r) == VramUsed(s) - Weight(m, Active) + Weight(m.(state := to), Active)
      && RamUsed(r) == RamUsed(s) - Weight(m, Warm) + Weight(m.(state := to), Warm)
      && VramUsed(s) >= Weight(m, Active) && RamUsed(s) >= Weight(m, Warm)
  {
    var m := s.models[i];
    LoadAfterUpdate(s.models, i, m.(state := to), Active);
    LoadAfterUpdate(s.models, i, m.(state := to), Warm);
    assert s.models[i := m] == s.models;
  }

  /** r differs from s at most in the state of model i, which moved down, with the log to match. */
  ghost predicate MovedDown(s: Sched, r: Sched, i: nat)
  {
    && i < |s.models|
    && r.budget == s.budget && r.holder == s.holder
    && |r.models| == |s.models|
    && (r == s || (s.models[i].state != Cold && r.models == s.models[i := s.models[i].(state := r.models[i].state)]))
    && VramUsed(r) == VramUsed(s) - Weight(s.models[i], Active) + Weight(r.models[i], Active)
    && VramUsed(r) <= VramUsed(s)
    && (RamUsed(r) <= RamUsed(s) || RamUsed(r) <= s.budget.ram)
    && (DistinctNames(s.models) ==>
          DistinctNames(r.models) && forall init | LogExplains(init, s) :: LogExplains(init, r))
  }

  lemma RecordDown(s: Sched, i: nat, to: RuntimeState, reason: string, now: real)
    requires i < |s.models| && s.models[i].state != Cold && to != Active
    requires to == Warm ==> RamUsed(s) + s.models[i].ram <= s.budget.ram
    ensures MovedDown(s, Record(s, i, to, reason, now), i)
  {
    RecordChangesLoads(s, i, to, reason, now);
    if DistinctNames(s.models) {
      forall init | LogExplains(init, s) ensures LogExplains(init, Record(s, i, to, reason, now)) {
        RecordKeepsTheLog(init, s, i, to, reason, now);
      }
      if s.models[i].state != to {
        StatesAfterUpdate(s.models, i, s.models[i].(state := to));
      }
    }
  }

  lemma DemoteMovesDown(s: Sched, i: nat, reason: string, now: real)
    requires i < |s.models|
    ensures MovedDown(s, DemoteAt(s, i, reason, now), i)
    ensures DemoteAt(s, i, reason, now).models[i].state != Active
  {
    var m := s.models[i];
    if m.state == Active {
      if !WarmTierEnabled(s.budget) {
        RecordDown(s, i, Cold, reason + ":warm_disabled", now);
      } else if RamUsed(s) + m.ram > s.budget.ram {
        RecordDown(s, i, Cold, reason + ":ram_pressure", now);
      } else {
        RecordDown(s, i, Warm, reason, now);
      }
    }
  }

  /** Demotion keeps the copy in RAM whenever the Warm tier exists and the budget still holds with it. */
  lemma DemotionPrefersWarm(s: Sched, i: nat, reason: string, now: real)
    requires i < |s.models| && s.models[i].state == Active
    ensures var kept := s.(models := s.models[i := s.models[i].(state := Warm)]);
      DemoteAt(s, i, reason, now).models ==
      if WarmTierEnabled(s.budget) && RamUsed(kept) <= s.budget.ram then kept.models
      else s.models[i := s.models[i].(state := Cold)]
  {
    LoadAfterUpdate(s.models, i, s.models[i].(state := Warm), Warm);
  }

  lemma EvictMovesDown(s: Sched, i: nat, reason: string, now: real)
    requires i < |s.models|
    ensures MovedDown(s, EvictAt(s, i, reason, now), i)
    ensures EvictAt(s, i, reason, now).models[i].state == Cold
  {
    match s.models[i].state {
      case Warm => RecordDown(s, i, Cold, reason, now);
      case Active => RecordDown(s, i, Cold, reason + ":direct", now);
      case Cold =>
    }
  }

  lemma MovedDownKeepsInv(s: Sched, r: Sched, i: nat)
    requires Inv(s) && MovedDown(s, r, i)
    ensures Inv(r)
  {
    forall m | m in r.models ensures m.vram <= r.budget.vram {
      var k :| 0 <= k < |r.models| && r.models[k] == m;
      assert s.models[k] in s.models;
    }
  }

  // ----- ticks ---------------------------------------------------------------------------------

  /** A tick at this instant leaves the model alone. */
  predicate Quiet(m: Model, now: real)
  {
    && (m.state == Active ==> now - m.lastUsedAt < m.idleOffload as real)
    && (m.state == Warm ==> now - m.lastUsedAt < m.coldOffload as real)
  }

  lemma StayingMovesDown(s: Sched, i: nat)
    requires i < |s.models|
    ensures MovedDown(s, s, i)
  {
  }

  lemma TickOneMovesDown(s: Sched, i: nat, now: real, at: real)
    requires i < |s.models|
    ensures var r := TickOne(s, i, now, at);
      && MovedDown(s, r, i)
      && (s.models[i].state != Active ==> Quiet(r.models[i], now))
      && (s.models[i].state == Active && Quiet(s.models[i], now) ==> r == s)
      && (r.models[i].state == Active ==> Quiet(r.models[i], now))
  {
    var m := s.models[i];
    var idle := now - m.lastUsedAt;
    if m.state == Active && idle >= m.idleOffload as real {
      DemoteMovesDown(s, i, "idle", at);
      assert TickOne(s, i, now, at) == DemoteAt(s, i, "idle", at);
    } else if m.state == Warm && idle >= m.coldOffload as real {
      EvictMovesDown(s, i, "idle_cold", at);
      assert TickOne(s, i, now, at) == EvictAt(s, i, "idle_cold", at);
    } else {
      StayingMovesDown(s, i);
    }
  }

  lemma {:induction false} TickKeeps(s: Sched, i: nat, now: real, clock: Clock)
    requires i <= |s.models| && DistinctNames(s.models)
    ensures var r := TickFrom(s, i, now, clock);
      && (Inv(s) ==> Inv(r))
      && DistinctNames(r.models)
      && (forall init | LogExplains(init, s) :: LogExplains(init, r))
      && r.budget == s.budget && r.holder == s.holder
    decreases |s.models| - i
  {
    if i < |s.models| {
      var next := TickOne(s, i, now, clock(i));
      TickOneMovesDown(s, i, now, clock(i));
      if Inv(s) {
        MovedDownKeepsInv(s, next, i);
      }
      TickKeeps(next, i + 1, now, clock);
    }
  }

  /** One pass settles every model that was not Active, and leaves no overdue Active model. */
  lemma {:induction false} TickEffect(s: Sched, i: nat, now: real, clock: Clock)
    requires i <= |s.models|
    ensures var r := TickFrom(s, i, now, clock);
      && (forall j | 0 <= j < i :: r.models[j] == s.models[j])
      && (forall j | i <= j < |s.models| ::
            && (s.models[j].state != Active ==> Quiet(r.models[j], now))
            && (r.models[j].state == Active ==> Quiet(r.models[j], now) && r.models[j] == s.models[j])
            && (s.models[j].state == Active && Quiet(s.models[j], now) ==> r.models[j] == s.models[j]))
    decreases |s.models| - i
  {
    if i < |s.models| {
      var next := TickOne(s, i, now, clock(i));
      TickOneMovesDown(s, i, now, clock(i));
      TickEffect(next, i + 1, now, clock);
      var r := TickFrom(s, i, now, clock);
      assert r.models[i] == next.models[i];
      assert forall j | i < j < |s.models| :: next.models[j] == s.models[j];
      assert forall j | 0 <= j < i :: next.models[j] == s.models[j];
    }
  }

  lemma {:induction false} TickOfQuietModels(s: Sched, i: nat, now: real, clock: Clock)
    requires i <= |s.models| && forall j | i <= j < |s.models| :: Quiet(s.models[j], now)
    ensures TickFrom(s, i, now, clock) == s
    decreases |s.models| - i
  {
    if i < |s.models| {
      TickOfQuietModels(s, i + 1, now, clock);
    }
  }

  /** Two ticks at one instant reach a fixed point: a third adds no event and changes nothing, whatever the clock
      reads in between. */
  lemma ThirdTickIsSilent(s: Sched, now: real, first: Clock, second: Clock, third: Clock)
    ensures var twice := Tick(Tick(s, now, first), now, second);
      Tick(twice, now, third) == twice
  {
    var once := Tick(s, now, first);
    TickEffect(s, 0, now, first);
    TickEffect(once, 0, now, second);
    var twice := Tick(once, now, second);
    forall j | 0 <= j < |twice.models| ensures Quiet(twice.models[j], now) {
      assert once.models[j].state == Active ==> Quiet(once.models[j], now);
    }
    TickOfQuietModels(twice, 0, now, third);
  }
}
