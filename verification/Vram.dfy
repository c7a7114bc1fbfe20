/** The scheduler object (core/scheduler/vram.py:67-360). Each public method runs under one
    re-entrant lock, so it is one step; its whole effect is the operation of module Placement.
    The clock's readings are parameters, one for each call and for a tick one for each model. */
module Vram {
  import opened Wrappers
  import opened Placement
  import opened PlacementProofs

  class ManagedModel {
    const name: string
    const vram: nat
    const ram: nat
    const idleOffload: int
    const coldOffload: int
    var state: RuntimeState
    var lastUsedAt: real

    constructor (name: string, vram: nat, ram: nat, idleOffload: int := 300, coldOffload: int := 1800)
      ensures View() == Model(name, vram, ram, idleOffload, coldOffload, Cold, 0.0)
    {
      this.name, this.vram, this.ram := name, vram, ram;
      this.idleOffload, this.coldOffload := idleOffload, coldOffload;
      state, lastUsedAt := Cold, 0.0;
    }

    function View(): Model
      reads this
    {
      Model(name, vram, ram, idleOffload, coldOffload, state, lastUsedAt)
    }
  }

  function Views(models: seq<ManagedModel>): (views: seq<Model>)
    reads models
    ensures |views| == |models| && forall i | 0 <= i < |models| :: views[i] == models[i].View()
  {
    seq(|models|, i requires 0 <= i < |models| reads models => models[i].View())
  }

  class ModelScheduler {
    const budget: Budget
    var models: seq<ManagedModel>
    var transitions: seq<Event>
    var holder: Option<string>

    /** The dictionary has one record for each name. */
    ghost predicate Valid()
      reads this, models
    {
      DistinctNames(Views(models))
    }

    function View(): Sched
      reads this, models
    {
      Sched(budget, Views(models), transitions, holder)
    }

    constructor (budget: Budget)
      ensures Valid() && View() == Empty(budget)
    {
      this.budget := budget;
      models, transitions, holder := [], [], None;
    }

    lemma RecordsAreDistinct()
      requires Valid()
      ensures forall i, j | 0 <= i < j < |models| :: models[i] != models[j]
    {
      forall i, j | 0 <= i < j < |models| ensures models[i] != models[j] {
        assert Views(models)[i].name != Views(models)[j].name;
      }
    }

    method SetState(i: nat, to: RuntimeState, reason: string, now: real)
      requires Valid() && i < |models|
      modifies this`transitions, models
      ensures Valid() && models == old(models)
      ensures View() == Record(old(View()), i, to, reason, now)
    {
      RecordsAreDistinct();
      var model := models[i];
      var from := model.state;
      if from == to {
        return;
      }
      model.state := to;
      transitions := transitions + [Event(model.name, from, to, reason, now)];
      assert Views(models) == old(Views(models))[i := old(model.View()).(state := to)];
    }

    method Demote(name: string, reason: string := "idle", now: real) returns (r: Result<RuntimeState, Error>)
      requires Valid()
      modifies this`transitions, models
      ensures Valid() && models == old(models)
      ensures View() == Placement.Demote(old(View()), name, reason, now)
      ensures r.Err? <==> Find(old(Views(models)), name) == |models|
      ensures r.Ok? ==> r.value == View().models[Find(old(Views(models)), name)].state
    {
      var i := Find(Views(models), name);
      if i == |models| {
        return Err(UnknownModel);
      }
      var model := models[i];
      if model.state != Active {
      } else if !WarmTierEnabled(budget) {
        SetState(i, Cold, reason + ":warm_disabled", now);
      } else if Load(Views(models), Warm) + model.ram > budget.ram {
        SetState(i, Cold, reason + ":ram_pressure", now);
      } else {
        SetState(i, Warm, reason, now);
      }
      return Ok(model.state);
    }

    method Evict(name: string, reason: string := "ram_pressure", now: real) returns (r: Result<RuntimeState, Error>)
      requires Valid()
      modifies this`transitions, models
      ensures Valid() && models == old(models)
      ensures View() == Placement.Evict(old(View()), name, reason, now)
      ensures r.Err? <==> Find(old(Views(models)), name) == |models|
      ensures r.Ok? ==> r.value == Cold
    {
      var i := Find(Views(models), name);
      if i == |models| {
        return Err(UnknownModel);
      }
      match models[i].state {
        case Warm => SetState(i, Cold, reason, now);
        case Active => SetState(i, Cold, reason + ":direct", now);
        case Cold =>
      }
      return Ok(models[i].state);
    }

    method Tick(now: real, clock: Clock) returns (events: seq<Event>)
      requires Valid()
      modifies this`transitions, models
      ensures Valid() && models == old(models)
      ensures View() == Placement.Tick(old(View()), now, clock)
      ensures old(transitions) + events == transitions
    {
      var before := |transitions|;
      for i := 0 to |models|
        invariant Valid() && models == old(models)
        invariant old(transitions) <= transitions
        invariant TickFrom(View(), i, now, clock) == Placement.Tick(old(View()), now, clock)
      {
        TickModel(i, now, clock(i));
      }
      return transitions[before..];
    }

    method TickModel(i: nat, now: real, at: real)
      requires Valid() && i < |models|
      modifies this`transitions, models
      ensures Valid() && models == old(models)
      ensures View() == TickOne(old(View()), i, now, at)
      ensures old(transitions) <= transitions
    {
      TickByName(View(), i, now, at);
      var model := models[i];
      var name := model.name;
      var idle := now - model.lastUsedAt;
      var demotes := model.state == Active && idle >= model.idleOffload as real;
      var evicts := model.state == Warm && idle >= model.coldOffload as real;
      assert View().models[i] == model.View();
      if demotes {
        var _ := Demote(name, "idle", at);
      } else if evicts {
        var _ := Evict(name, "idle_cold", at);
      }
      assert old(View()).log <= View().log;
    }

    /** Demotes the candidates one by one until the missing megabytes fit. */
    method DemoteUntilFits(missing: nat, candidates: seq<Model>, now: real) returns (fits: bool)
      requires Valid()
      modifies this`transitions, models
      ensures Valid() && models == old(models)
      ensures View() == FreeVram(old(View()), missing, candidates, now)
      ensures fits <==> VramUsed(View()) + missing <= budget.vram
    {
      var index := 0;
      ghost var goal := FreeVram(View(), missing, candidates, now);
      assert candidates[0..] == candidates;
      while Load(Views(models), Active) + missing > budget.vram
        invariant 0 <= index <= |candidates|
        invariant Valid() && models == old(models)
        invariant FreeVram(View(), missing, candidates[index..], now) == goal
        decreases |candidates| - index
      {
        if index >= |candidates| {
          break;
        }
        assert candidates[index..][1..] == candidates[index + 1..];
        var _ := Demote(candidates[index].name, "vram_pressure", now);
        index := index + 1;
      }
      return Load(Views(models), Active) + missing <= budget.vram;
    }

    method FreeVramFor(i: nat, now: real) returns (r: Result<(), Error>)
      requires Valid() && i < |models|
      modifies this`transitions, models
      ensures Valid() && models == old(models)
      ensures View() == FreeVram(old(View()), Missing(old(models[i].View())),
                                 LruOthers(old(Views(models)), models[i].name), now)
      ensures r == if VramUsed(View()) + Missing(old(models[i].View())) > budget.vram then Err(CannotFit) else Ok(())
    {
      var missing := if models[i].state == Active then 0 else models[i].vram;
      var fits := DemoteUntilFits(missing, LruOthers(Views(models), models[i].name), now);
      return if fits then Ok(()) else Err(CannotFit);
    }

    method MarkUsed(i: nat, now: real)
      requires Valid() && i < |models|
      modifies models
      ensures Valid() && models == old(models) && transitions == old(transitions)
      ensures Views(models) == old(Views(models))[i := old(models[i].View()).(lastUsedAt := now)]
    {
      RecordsAreDistinct();
      models[i].lastUsedAt := now;
    }

    method Acquire(name: string, now: real) returns (r: Result<RuntimeState, Error>)
      requires Valid()
      modifies this`transitions, models
      ensures Valid() && models == old(models)
      ensures (View(), r) == Placement.Acquire(old(View()), name, now)
    {
      if holder.Some? {
        return Err(TrainingInProgress);
      }
      var i := Find(Views(models), name);
      if i == |models| {
        return Err(UnknownModel);
      }
      var previous := models[i].state;
      ghost var was := View();
      assert i == Find(was.models, name) && was.models[i].state == previous;
      var freed := FreeVramFor(i, now);
      ghost var free := View();
      assert free == FreeVram(was, Missing(was.models[i]), LruOthers(was.models, name), now);
      if freed.Err? {
        return Err(freed.error);
      }
      SetState(i, Active, AcquireReason(previous), now);
      ghost var active := View();
      MarkUsed(i, now);
      assert View() == active.(models := active.models[i := active.models[i].(lastUsedAt := now)]);
      return Ok(models[i].state);
    }

    method Register(model: ManagedModel) returns (r: Result<(), Error>)
      requires Valid()
      modifies this`models
      ensures Valid()
      ensures (View(), r) == Placement.Register(old(View()), model.View())
      ensures r.Ok? ==> model in models
      ensures forall k | 0 <= k < |models| :: models[k] in old(models) || models[k] == model
    {
      if model.vram > budget.vram {
        return Err(OverBudget);
      }
      var i := Find(Views(models), model.name);
      ghost var was := Views(models);
      if i < |models| {
        models := models[i := model];
        assert Views(models) == was[i := model.View()];
        assert models[i] == model;
      } else {
        models := models + [model];
        assert Views(models) == was + [model.View()];
        assert models[|models| - 1] == model;
      }
      return Ok(());
    }

    method TryBeginTraining(job: string) returns (r: Result<seq<string>, Error>)
      requires Valid()
      modifies this`holder
      ensures Valid()
      ensures (View(), r) == Placement.TryBeginTraining(old(View()), job)
    {
      if job == "" {
        return Err(EmptyHolder);
      }
      var active := ActiveNames(Views(models));
      if active != [] {
        return Ok(active);
      }
      holder := Some(job);
      return Ok([]);
    }

    method EndTraining()
      requires Valid()
      modifies this`holder
      ensures Valid() && View() == Placement.EndTraining(old(View()))
    {
      holder := None;
    }
  }
}
