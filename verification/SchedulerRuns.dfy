/** Whole runs of the scheduler object (core/scheduler/vram.py:155-360): the operations of module Placement are its
    calls, so what holds in every reachable state holds of the object. */
module SchedulerRuns {
  import opened Wrappers
  import opened Placement
  import opened PlacementProofs
  import opened AcquireProofs
  import opened Vram

  /** One operation of a run is one call. */
  method Perform(scheduler: ModelScheduler, op: Op)
    requires scheduler.Valid()
    modifies scheduler, scheduler.models
    ensures scheduler.Valid() && scheduler.View() == Apply(old(scheduler.View()), op)
    ensures forall k | 0 <= k < |scheduler.models| ::
      scheduler.models[k] in old(scheduler.models) || fresh(scheduler.models[k])
  {
    match op {
      case DoRegister(m) =>
        var model := new ManagedModel(m.name, m.vram, m.ram, m.idleOffload, m.coldOffload);
        model.state, model.lastUsedAt := m.state, m.lastUsedAt;
        assert model.View() == m;
        var _ := scheduler.Register(model);
      case DoAcquire(name, now) => var _ := scheduler.Acquire(name, now);
      case DoDemote(name, reason, now) => var _ := scheduler.Demote(name, reason, now);
      case DoEvict(name, reason, now) => var _ := scheduler.Evict(name, reason, now);
      case DoTick(now, clock) => var _ := scheduler.Tick(now, clock);
      case DoTryBegin(holder) => var _ := scheduler.TryBeginTraining(holder);
      case DoEnd => scheduler.EndTraining();
    }
  }

  /** Any calls, in any order, on a new scheduler: both budgets hold, and the log leads from unloaded models to the
      current placement, if names are registered once and unloaded. */
  method PerformAll(budget: Budget, ops: seq<Op>) returns (scheduler: ModelScheduler)
    ensures fresh(scheduler) && scheduler.Valid() && scheduler.View() == Run(Empty(budget), ops)
    ensures ProperRun(Empty(budget), ops) ==>
      && Inv(scheduler.View())
      && exists init | LogExplains(init, scheduler.View()) :: forall n | n in init :: init[n] == Cold
  {
    scheduler := new ModelScheduler(budget);
    assert ops[0..] == ops;
    for i := 0 to |ops|
      invariant fresh(scheduler) && scheduler.Valid()
      invariant forall k | 0 <= k < |scheduler.models| :: fresh(scheduler.models[k])
      invariant Run(scheduler.View(), ops[i..]) == Run(Empty(budget), ops)
    {
      assert ops[i..][0] == ops[i] && ops[i..][1..] == ops[i + 1..];
      ghost var before := scheduler.models;
      Perform(scheduler, ops[i]);
      assert forall k | 0 <= k < |before| :: fresh(before[k]);
    }
    assert ops[|ops|..] == [];
    if ProperRun(Empty(budget), ops) {
      EveryReachableStateIsSound(budget, ops);
    }
  }
}
