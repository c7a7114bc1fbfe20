/** Active / Warm / Cold placement of managed models: the state that the scheduler's
    operations compute (core/scheduler/vram.py:35-360), as functions on values. */
module Placement {
  import opened Wrappers
  import StableSort

  const WARM_TIER_MIN_RAM_MB := 16 * 1024

  datatype RuntimeState = Active | Warm | Cold

  datatype Budget = Budget(vram: nat, ram: nat)

  datatype Model = Model(
    name: string, vram: nat, ram: nat, idleOffload: int, coldOffload: int,
    state: RuntimeState, lastUsedAt: real)

  datatype Event = Event(name: string, from: RuntimeState, to: RuntimeState, reason: string, at: real)

  datatype Error = TrainingInProgress | UnknownModel | CannotFit | OverBudget | EmptyHolder

  /** models is the registration dictionary in insertion order. */
  datatype Sched = Sched(budget: Budget, models: seq<Model>, log: seq<Event>, holder: Option<string>)

  predicate WarmTierEnabled(b: Budget)
  {
    b.ram >= WARM_TIER_MIN_RAM_MB
  }

  // ----- accounting ------------------------------------------------------------------

  /** What a model takes from the budget of a tier. */
  function Weight(m: Model, tier: RuntimeState): nat
  {
    if m.state != tier then 0 else if tier.Active? then m.vram else if tier.Warm? then m.ram else 0
  }

  function Load(models: seq<Model>, tier: RuntimeState): nat
  {
    if models == [] then 0 else Weight(models[0], tier) + Load(models[1..], tier)
  }

  function VramUsed(s: Sched): nat { Load(s.models, Active) }
  function RamUsed(s: Sched): nat { Load(s.models, Warm) }

  lemma {:induction false} LoadAfterUpdate(models: seq<Model>, i: nat, m: Model, tier: RuntimeState)
    requires i < |models|
    ensures Load(models[i := m], tier) == Load(models, tier) - Weight(models[i], tier) + Weight(m, tier)
    ensures Load(models, tier) >= Weight(models[i], tier)
  {
    if i == 0 {
      assert models[0 := m][1..] == models[1..];
    } else {
      LoadAfterUpdate(models[1..], i - 1, m, tier);
      assert models[i := m][1..] == models[1..][i - 1 := m];
    }
  }

  lemma {:induction false} LoadAfterAppend(models: seq<Model>, m: Model, tier: RuntimeState)
    ensures Load(models + [m], tier) == Load(models, tier) + Weight(m, tier)
  {
    if models == [] {
      assert models + [m] == [m];
      assert [m][1..] == [];
    } else {
      assert (models + [m])[1..] == models[1..] + [m];
      LoadAfterAppend(models[1..], m, tier);
    }
  }

  // ----- lookup -------------------------------------------------------------------------

  ghost predicate DistinctNames(models: seq<Model>)
  {
    forall i, j | 0 <= i < j < |models| :: models[i].name != models[j].name
  }

  /** The position of a name, or |models| when it is not registered. */
  function Find(models: seq<Model>, name: string): (i: nat)
    ensures i <= |models|
    ensures i < |models| ==> models[i].name == name
    ensures forall j | 0 <= j < i :: models[j].name != name
  {
    if models == [] || models[0].name == name then 0 else 1 + Find(models[1..], name)
  }

  lemma FindAt(models: seq<Model>, i: nat)
    requires DistinctNames(models) && i < |models|
    ensures Find(models, models[i].name) == i
  {
  }

  // ----- transitions --------------------------------------------------------------------

  function Record(s: Sched, i: nat, to: RuntimeState, reason: string, now: real): Sched
    requires i < |s.models|
  {
    var m := s.models[i];
    if m.state == to then s
    else s.(models := s.models[i := m.(state := to)], log := s.log + [Event(m.name, m.state, to, reason, now)])
  }

  function DemoteAt(s: Sched, i: nat, reason: string, now: real): Sched
    requires i < |s.models|
  {
    var m := s.models[i];
    if m.state != Active then s
    else if !WarmTierEnabled(s.budget) then Record(s, i, Cold, reason + ":warm_disabled", now)
    else if RamUsed(s) + m.ram > s.budget.ram then Record(s, i, Cold, reason + ":ram_pressure", now)
    else Record(s, i, Warm, reason, now)
  }

  function Demote(s: Sched, name: string, reason: string, now: real): Sched
  {
    var i := Find(s.models, name);
    if i == |s.models| then s else DemoteAt(s, i, reason, now)
  }

  function EvictAt(s: Sched, i: nat, reason: string, now: real): Sched
    requires i < |s.models|
  {
    match s.models[i].state
    case Warm => Record(s, i, Cold, reason, now)
    case Active => Record(s, i, Cold, reason + ":direct", now)
    case Cold => s
  }

  function Evict(s: Sched, name: string, reason: string, now: real): Sched
  {
    var i := Find(s.models, name);
    if i == |s.models| then s else EvictAt(s, i, reason, now)
  }

  /** Idleness is measured at now; a transition is stamped with at, the clock's reading. */
  function TickOne(s: Sched, i: nat, now: real, at: real): Sched
    requires i < |s.models|
  {
    var m := s.models[i];
    var idle := now - m.lastUsedAt;
    if m.state == Active && idle >= m.idleOffload as real then DemoteAt(s, i, "idle", at)
    else if m.state == Warm && idle >= m.coldOffload as real then EvictAt(s, i, "idle_cold", at)
    else s
  }

  /** A tick reaches the model through its name. */
  lemma TickByName(s: Sched, i: nat, now: real, at: real)
    requires DistinctNames(s.models) && i < |s.models|
    ensures var m := s.models[i]; var idle := now - m.lastUsedAt;
      TickOne(s, i, now, at) ==
        if m.state == Active && idle >= m.idleOffload as real then Demote(s, m.name, "idle", at)
        else if m.state == Warm && idle >= m.coldOffload as real then Evict(s, m.name, "idle_cold", at)
        else s
    ensures s.log <= TickOne(s, i, now, at).log
  {
    FindAt(s.models, i);
  }

  /** What the clock reads at each model of one pass. */
  type Clock = nat -> real

  /** The models from position i on, in dictionary order. */
  function TickFrom(s: Sched, i: nat, now: real, clock: Clock): (r: Sched)
    requires i <= |s.models|
    ensures |r.models| == |s.models|
    decreases |s.models| - i
  {
    if i == |s.models| then s else TickFrom(TickOne(s, i, now, clock(i)), i + 1, now, clock)
  }

  function Tick(s: Sched, now: real, clock: Clock): Sched { TickFrom(s, 0, now, clock) }

  // ----- acquiring ------------------------------------------------------------------------

  function ActiveOthers(models: seq<Model>, name: string): seq<Model>
  {
    if models == [] then []
    else
      var first := if models[0].state == Active && models[0].name != name then [models[0]] else [];
      first + ActiveOthers(models[1..], name)
  }

  /** The other Active models, least recently used first. */
  function LruOthers(models: seq<Model>, name: string): seq<Model>
  {
    StableSort.Sort(ActiveOthers(models, name), (m: Model) => m.lastUsedAt)
  }

  /** VRAM of the incoming model that still has to be found. */
  function Missing(m: Model): nat { if m.state == Active then 0 else m.vram }

  /** Demotes candidates one by one while the incoming model does not fit. */
  function FreeVram(s: Sched, missing: nat, candidates: seq<Model>, now: real): (r: Sched)
    ensures r.budget == s.budget && |r.models| == |s.models|
    decreases |candidates|
  {
    if VramUsed(s) + missing > s.budget.vram && candidates != [] then
      FreeVram(Demote(s, candidates[0].name, "vram_pressure", now), missing, candidates[1..], now)
    else s
  }

  function AcquireReason(from: RuntimeState): string
  {
    match from
    case Warm => "warm_restore"
    case Cold => "cold_restore"
    case Active => "acquire"
  }

  function Acquire(s: Sched, name: string, now: real): (Sched, Result<RuntimeState, Error>)
  {
    var i := Find(s.models, name);
    if s.holder.Some? then (s, Err(TrainingInProgress))
    else if i == |s.models| then (s, Err(UnknownModel))
    else
      var missing := Missing(s.models[i]);
      var freed := FreeVram(s, missing, LruOthers(s.models, name), now);
      if VramUsed(freed) + missing > s.budget.vram then (freed, Err(CannotFit))
      else (Activate(freed, i, AcquireReason(s.models[i].state), now), Ok(Active))
  }

  function Activate(s: Sched, i: nat, reason: string, now: real): Sched
    requires i < |s.models|
  {
    var active := Record(s, i, Active, reason, now);
    active.(models := active.models[i := active.models[i].(lastUsedAt := now)])
  }

  // ----- registration and the training lock -----------------------------------------------

  function Register(s: Sched, m: Model): (Sched, Result<(), Error>)
  {
    var i := Find(s.models, m.name);
    if m.vram > s.budget.vram then (s, Err(OverBudget))
    else if i < |s.models| then (s.(models := s.models[i := m]), Ok(()))
    else (s.(models := s.models + [m]), Ok(()))
  }

  function ActiveNames(models: seq<Model>): seq<string>
  {
    if models == [] then []
    else (if models[0].state == Active then [models[0].name] else []) + ActiveNames(models[1..])
  }

  function TryBeginTraining(s: Sched, holder: string): (Sched, Result<seq<string>, Error>)
  {
    var active := ActiveNames(s.models);
    if holder == "" then (s, Err(EmptyHolder))
    else if active != [] then (s, Ok(active))
    else (s.(holder := Some(holder)), Ok([]))
  }

  function EndTraining(s: Sched): Sched { s.(holder := None) }

  // ----- one operation, and a whole run ------------------------------------------------------

  datatype Op =
    | DoRegister(model: Model)
    | DoAcquire(name: string, now: real)
    | DoDemote(name: string, reason: string, now: real)
    | DoEvict(name: string, reason: string, now: real)
    | DoTick(now: real, clock: Clock)
    | DoTryBegin(holder: string)
    | DoEnd

  function Apply(s: Sched, op: Op): Sched
  {
    match op
    case DoRegister(m) => Register(s, m).0
    case DoAcquire(name, now) => Acquire(s, name, now).0
    case DoDemote(name, reason, now) => Demote(s, name, reason, now)
    case DoEvict(name, reason, now) => Evict(s, name, reason, now)
    case DoTick(now, clock) => Tick(s, now, clock)
    case DoTryBegin(holder) => TryBeginTraining(s, holder).0
    case DoEnd => EndTraining(s)
  }

  function Run(s: Sched, ops: seq<Op>): Sched
    decreases |ops|
  {
    if ops == [] then s else Run(Apply(s, ops[0]), ops[1..])
  }

  function Empty(b: Budget): Sched { Sched(b, [], [], None) }
}
