/** What the scheduler writes into its log (core/scheduler/vram.py:248-262): for every operation the events it adds,
    with their reasons and times, and what else a caller reads off its result. */
module EventProofs {
  import opened Wrappers
  import opened Placement
  import opened PlacementProofs
  import opened AcquireProofs
  import StableSort

  // ----- demotion and eviction ------------------------------------------------------------

  /** The event of a demotion for the given reason: a model that could not be kept in RAM says why. */
  ghost predicate Demoted(e: Event, was: Model, to: RuntimeState, reason: string, warmTier: bool, at: real)
  {
    && e.name == was.name && e.from == Active && e.to == to && e.at == at
    && (to == Warm ==> e.reason == reason)
    && (to == Cold ==> e.reason == reason + if warmTier then ":ram_pressure" else ":warm_disabled")
  }

  lemma DemotionIsLogged(s: Sched, i: nat, reason: string, at: real)
    requires i < |s.models|
    ensures var r := DemoteAt(s, i, reason, at);
      if s.models[i].state != Active then r == s
      else
        && |r.models| == |s.models|
        && |r.log| == |s.log| + 1 && s.log <= r.log
        && Demoted(r.log[|s.log|], s.models[i], r.models[i].state, reason, WarmTierEnabled(s.budget), at)
  {
  }

  lemma EvictionIsLogged(s: Sched, i: nat, reason: string, at: real)
    requires i < |s.models|
    ensures var m, r := s.models[i], EvictAt(s, i, reason, at);
      if m.state == Cold then r == s
      else
        && r.models == s.models[i := m.(state := Cold)]
        && r.log == s.log + [Event(m.name, m.state, Cold, if m.state == Active then reason + ":direct" else reason, at)]
  {
  }

  // ----- ticks ------------------------------------------------------------------------------

  /** The event of a tick for one model: an idle Active model is demoted, an idle Warm one evicted. */
  ghost predicate Ticked(e: Event, was: Model, to: RuntimeState, warmTier: bool, at: real)
  {
    if was.state == Active then Demoted(e, was, to, "idle", warmTier, at)
    else e == Event(was.name, Warm, Cold, "idle_cold", at)
  }

  /** One model's share of a tick: unless it is overdue nothing happens. */
  lemma TickOneIsLogged(s: Sched, i: nat, now: real, at: real)
    requires i < |s.models|
    ensures var r := TickOne(s, i, now, at);
      && |r.models| == |s.models| && r.budget == s.budget
      && (forall j | 0 <= j < |s.models| && j != i :: r.models[j] == s.models[j])
      && (if Quiet(s.models[i], now) then r == s
          else
            && r.models[i].state != s.models[i].state
            && (s.models[i].state == Warm ==> r.models[i].state == Cold)
            && |r.log| == |s.log| + 1 && s.log <= r.log
            && Ticked(r.log[|s.log|], s.models[i], r.models[i].state, WarmTierEnabled(s.budget), at))
  {
  }

  /** A tick logs one event for each model that was overdue when it came to it and no other, in dictionary order and
      with the clock's reading at that model. */
  ghost predicate LogsTheOverdue(s: Sched, r: Sched, i: nat, now: real, clock: Clock)
    decreases |s.models| - i
  {
    |r.models| == |s.models| &&
    if i >= |s.models| then r.log == s.log
    else if Quiet(s.models[i], now) then LogsTheOverdue(s, r, i + 1, now, clock)
    else
      && |s.log| < |r.log|
      && Ticked(r.log[|s.log|], s.models[i], r.models[i].state, WarmTierEnabled(s.budget), clock(i))
      && LogsTheOverdue(s.(log := r.log[..|s.log| + 1]), r, i + 1, now, clock)
      && s.log <= r.log
  }

  lemma {:induction false} TickIsLogged(s: Sched, i: nat, now: real, clock: Clock)
    requires i <= |s.models|
    ensures LogsTheOverdue(s, TickFrom(s, i, now, clock), i, now, clock)
    decreases |s.models| - i
  {
    if i < |s.models| {
      var next := TickOne(s, i, now, clock(i));
      var r := TickFrom(s, i, now, clock);
      TickOneIsLogged(s, i, now, clock(i));
      TickIsLogged(next, i + 1, now, clock);
      TickEffect(next, i + 1, now, clock);
      assert r.models[i] == next.models[i];
      LogGrowsOnly(next, r, i + 1, now, clock);
      if !Quiet(s.models[i], now) {
        assert r.log[..|next.log|] == next.log;
        assert r.log[|s.log|] == next.log[|s.log|];
        OnlyTheRestMatters(next, s.(log := next.log), r, i + 1, now, clock);
      }
    }
  }

  lemma {:induction false} LogGrowsOnly(s: Sched, r: Sched, i: nat, now: real, clock: Clock)
    requires LogsTheOverdue(s, r, i, now, clock)
    ensures s.log <= r.log
    decreases |s.models| - i
  {
    if i < |s.models| {
      if Quiet(s.models[i], now) {
        LogGrowsOnly(s, r, i + 1, now, clock);
      }
    }
  }

  /** Models before position i do not matter. */
  lemma {:induction false} OnlyTheRestMatters(s: Sched, t: Sched, r: Sched, i: nat, now: real, clock: Clock)
    requires LogsTheOverdue(s, r, i, now, clock)
    requires |s.models| == |t.models| && s.log == t.log && s.budget == t.budget
    requires forall j | i <= j < |s.models| :: s.models[j] == t.models[j]
    ensures LogsTheOverdue(t, r, i, now, clock)
    decreases |s.models| - i
  {
    if i < |s.models| {
      if Quiet(s.models[i], now) {
        OnlyTheRestMatters(s, t, r, i + 1, now, clock);
      } else {
        var log := r.log[..|s.log| + 1];
        OnlyTheRestMatters(s.(log := log), t.(log := log), r, i + 1, now, clock);
      }
    }
  }

  // ----- acquiring --------------------------------------------------------------------------

  /** The log of r goes on from that of s with the demotion of each candidate, in order. */
  ghost predicate EachDemoted(s: Sched, r: Sched, candidates: seq<Model>, at: real)
  {
    && |r.models| == |s.models|
    && |s.log| + |candidates| <= |r.log|
    && forall j | 0 <= j < |candidates| ::
         var i := Find(s.models, candidates[j].name);
         i < |s.models| &&
         Demoted(r.log[|s.log| + j], candidates[j], r.models[i].state, "vram_pressure", WarmTierEnabled(s.budget), at)
  }

  lemma {:induction false} DemotionsAreLogged(s: Sched, candidates: seq<Model>, at: real)
    requires Listed(s, candidates)
    ensures var r := DemoteEach(s, candidates, at);
      && r.budget == s.budget && |r.log| == |s.log| + |candidates| && s.log <= r.log
      && EachDemoted(s, r, candidates, at)
    decreases |candidates|
  {
    if candidates != [] {
      var c, rest := candidates[0], candidates[1..];
      DemoteListed(s, candidates, at);
      var i := Find(s.models, c.name);
      var next := Demote(s, c.name, "vram_pressure", at);
      DemotionIsLogged(s, i, "vram_pressure", at);
      DemotionsAreLogged(next, rest, at);
      var r := DemoteEach(s, candidates, at);
      HeadIsNotRepeated(candidates);
      DemoteEachAt(next, rest, i, at);
      assert r.log[|s.log|] == next.log[|s.log|];
      OneMoreDemoted(s, next, r, candidates, i, at);
    }
  }

  lemma OneMoreDemoted(s: Sched, next: Sched, r: Sched, candidates: seq<Model>, i: nat, at: real)
    requires candidates != [] && i < |s.models| == |next.models| && i == Find(s.models, candidates[0].name)
    requires next.models == s.models[i := next.models[i]] && next.models[i].name == s.models[i].name
    requires next.budget == s.budget && |next.log| == |s.log| + 1
    requires EachDemoted(next, r, candidates[1..], at)
    requires Demoted(r.log[|s.log|], candidates[0], r.models[i].state, "vram_pressure", WarmTierEnabled(s.budget), at)
    ensures EachDemoted(s, r, candidates, at)
  {
    forall j | 0 < j < |candidates|
      ensures Find(s.models, candidates[j].name) == Find(next.models, candidates[1..][j - 1].name)
    {
      SameNames(s.models, next.models, i, candidates[j].name);
    }
  }

  lemma SameNames(a: seq<Model>, b: seq<Model>, i: nat, name: string)
    requires i < |a| && |a| == |b| && b == a[i := b[i]] && a[i].name == b[i].name
    ensures Find(a, name) == Find(b, name)
  {
    assert forall j | 0 <= j < |a| :: a[j].name == b[j].name;
    FindIs(b, name, Find(a, name));
  }

  /** The position of a name is the first one. */
  lemma {:induction false} FindIs(models: seq<Model>, name: string, i: nat)
    requires i <= |models| && forall j | 0 <= j < i :: models[j].name != name
    requires i < |models| ==> models[i].name == name
    ensures Find(models, name) == i
  {
    if i > 0 {
      FindIs(models[1..], name, i - 1);
    }
  }

  /** Acquiring logs the demotion of every evicted model in order of last use, and then the restore of its own model,
      from Warm or from Cold; an Active model is not restored. Everything carries the time of the call. */
  lemma AcquireIsLogged(s: Sched, name: string, now: real)
    requires Inv(s) && s.holder.None? && Find(s.models, name) < |s.models|
    ensures var i := Find(s.models, name); var out := Evicted(s, name); var r := Acquire(s, name, now).0;
      && |r.models| == |s.models| && s.log <= r.log
      && |r.log| == |s.log| + |out| + (if s.models[i].state == Active then 0 else 1)
      && (s.models[i].state == Warm ==> r.log[|r.log| - 1] == Event(name, Warm, Active, "warm_restore", now))
      && (s.models[i].state == Cold ==> r.log[|r.log| - 1] == Event(name, Cold, Active, "cold_restore", now))
      && EachDemoted(s, r, out, now)
  {
    var i, out := Find(s.models, name), Evicted(s, name);
    AcquireSteps(s, name, now);
    AcquireFits(s, name, now);
    EvictedIsListed(s, name);
    DemotionsAreLogged(s, out, now);
    var freed := DemoteEach(s, out, now);
    var r := Acquire(s, name, now).0;
    LruIsListed(s, name);
    forall j | 0 <= j < |out| ensures Find(s.models, out[j].name) != i {
      assert out[j] == LruOthers(s.models, name)[j];
      assert out[j] in LruOthers(s.models, name);
      LruOthersAre(s.models, name);
    }
  }

  lemma {:induction false} ActiveOthersOneMore(models: seq<Model>, m: Model, name: string)
    ensures ActiveOthers(models + [m], name)
         == ActiveOthers(models, name) + if m.state == Active && m.name != name then [m] else []
  {
    if models == [] {
      assert models + [m] == [m] && [m][1..] == [];
    } else {
      assert (models + [m])[1..] == models[1..] + [m];
      ActiveOthersOneMore(models[1..], m, name);
    }
  }

  /** Of two candidates used at the same time the one registered first goes first. */
  lemma CandidateTiesKeepTheirOrder(models: seq<Model>, name: string, at: real)
    ensures var key := (m: Model) => m.lastUsedAt;
      StableSort.WithKey(LruOthers(models, name), key, at) == StableSort.WithKey(ActiveOthers(models, name), key, at)
  {
    StableSort.SortIsStable(ActiveOthers(models, name), (m: Model) => m.lastUsedAt, at);
  }

  // ----- registration and the training lock ---------------------------------------------------

  /** A model over the budget is refused; otherwise its record stands where the name stood, or at the end, and nothing
      else changes. */
  lemma RegisterEffect(s: Sched, m: Model)
    ensures var (r, answer) := Register(s, m); var i := Find(s.models, m.name);
      && (answer.Err? <==> m.vram > s.budget.vram)
      && r.log == s.log && r.holder == s.holder && r.budget == s.budget
      && (answer.Err? ==> r == s)
      && (answer.Ok? ==>
            && |r.models| == (if i < |s.models| then |s.models| else |s.models| + 1)
            && r.models[i] == m
            && forall j | 0 <= j < |s.models| && j != i :: r.models[j] == s.models[j])
  {
  }

  lemma {:induction false} ActiveNamesOneMore(models: seq<Model>, m: Model)
    ensures ActiveNames(models + [m]) == ActiveNames(models) + if m.state == Active then [m.name] else []
  {
    if models == [] {
      assert models + [m] == [m] && [m][1..] == [];
    } else {
      assert (models + [m])[1..] == models[1..] + [m];
      ActiveNamesOneMore(models[1..], m);
    }
  }

  lemma {:induction false} NoActiveNamesIff(models: seq<Model>)
    ensures ActiveNames(models) == [] <==> forall i | 0 <= i < |models| :: models[i].state != Active
  {
    if models != [] {
      NoActiveNamesIff(models[1..]);
      assert forall i | 0 < i < |models| :: models[i] == models[1..][i - 1];
    }
  }

  /** The training lock is taken exactly by a named holder while no model is Active; otherwise nothing changes. */
  lemma TrainingBeginsIff(s: Sched, holder: string)
    ensures var (r, answer) := TryBeginTraining(s, holder);
      var free := holder != "" && forall i | 0 <= i < |s.models| :: s.models[i].state != Active;
      && r == (if free then s.(holder := Some(holder)) else s)
      && (answer == Ok([]) <==> free)
      && (answer.Err? <==> holder == "")
  {
    NoActiveNamesIff(s.models);
  }
}
