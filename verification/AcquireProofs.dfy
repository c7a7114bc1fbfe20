/** Least-recently-used eviction by acquire (core/scheduler/vram.py:265-312), and the
    invariants of whole runs. */
module AcquireProofs {
  import opened Wrappers
  import opened Placement
  import opened PlacementProofs
  import StableSort

  function VramOf(models: seq<Model>): nat
  {
    if models == [] then 0 else models[0].vram + VramOf(models[1..])
  }

  // ----- the candidates ---------------------------------------------------------------

  lemma {:induction false} VramOfInsert(m: Model, rest: seq<Model>, key: Model -> real)
    ensures VramOf(StableSort.Insert(m, rest, key)) == m.vram + VramOf(rest)
  {
    if rest != [] && key(rest[0]) < key(m) {
      VramOfInsert(m, rest[1..], key);
    } else {
      assert ([m] + rest)[1..] == rest;
    }
  }

  lemma {:induction false} VramOfSort(models: seq<Model>, key: Model -> real)
    ensures VramOf(StableSort.Sort(models, key)) == VramOf(models)
  {
    if models != [] {
      VramOfSort(models[1..], key);
      VramOfInsert(models[0], StableSort.Sort(models[1..], key), key);
    }
  }

  lemma {:induction false} ActiveOthersAre(models: seq<Model>, name: string, m: Model)
    ensures m in ActiveOthers(models, name) <==> m in models && m.state == Active && m.name != name
  {
    if models != [] {
      ActiveOthersAre(models[1..], name, m);
    }
  }

  lemma {:induction false} ActiveLoadSplits(models: seq<Model>, name: string)
    requires DistinctNames(models)
    ensures Load(models, Active) == VramOf(ActiveOthers(models, name))
          + (var i := Find(models, name); if i < |models| then Weight(models[i], Active) else 0)
  {
    if models != [] {
      ActiveLoadSplits(models[1..], name);
      var first := if models[0].state == Active && models[0].name != name then [models[0]] else [];
      var rest := ActiveOthers(models[1..], name);
      if first != [] {
        assert (first + rest)[1..] == rest;
      } else {
        assert first + rest == rest;
      }
      if models[0].name == name {
        forall j | 0 <= j < |models[1..]| ensures models[1..][j].name != name {
          assert models[j + 1].name != models[0].name;
        }
        assert Find(models[1..], name) == |models[1..]|;
      }
    }
  }

  lemma {:induction false} ActiveOthersDistinct(models: seq<Model>, name: string)
    requires DistinctNames(models)
    ensures DistinctNames(ActiveOthers(models, name))
  {
    if models != [] {
      ActiveOthersDistinct(models[1..], name);
      var rest := ActiveOthers(models[1..], name);
      forall k | 0 <= k < |rest| ensures rest[k].name != models[0].name {
        ActiveOthersAre(models[1..], name, rest[k]);
        var j :| 0 <= j < |models[1..]| && models[1..][j] == rest[k];
        assert models[j + 1] == rest[k];
      }
    }
  }

  lemma {:induction false} InsertKeepsNamesDistinct(m: Model, rest: seq<Model>, key: Model -> real)
    requires DistinctNames(rest) && forall q | q in rest :: q.name != m.name
    ensures DistinctNames(StableSort.Insert(m, rest, key))
  {
    if rest != [] && key(rest[0]) < key(m) {
      InsertKeepsNamesDistinct(m, rest[1..], key);
      var tail := StableSort.Insert(m, rest[1..], key);
      StableSort.InsertAddsItem(m, rest[1..], key);
      forall k | 0 <= k < |tail| ensures tail[k].name != rest[0].name {
        assert tail[k] in multiset(tail);
        assert tail[k] == m || tail[k] in rest[1..];
        if tail[k] in rest[1..] {
          var j :| 0 <= j < |rest[1..]| && rest[1..][j] == tail[k];
          assert rest[j + 1] == tail[k];
        }
      }
    }
  }

  lemma {:induction false} SortKeepsNamesDistinct(models: seq<Model>, key: Model -> real)
    requires DistinctNames(models)
    ensures DistinctNames(StableSort.Sort(models, key))
  {
    if models != [] {
      SortKeepsNamesDistinct(models[1..], key);
      forall q | q in StableSort.Sort(models[1..], key) ensures q.name != models[0].name {
        StableSort.SortHasSameItems(models[1..], key, q);
        var j :| 0 <= j < |models[1..]| && models[1..][j] == q;
        assert models[j + 1] == q;
      }
      InsertKeepsNamesDistinct(models[0], StableSort.Sort(models[1..], key), key);
    }
  }

  /** The candidate list: the other Active models, each once, in order of last use. */
  lemma LruOthersAre(models: seq<Model>, name: string)
    requires DistinctNames(models)
    ensures var lru := LruOthers(models, name);
      && DistinctNames(lru)
      && (forall m :: m in lru <==> m in models && m.state == Active && m.name != name)
      && (forall i, j | 0 <= i < j < |lru| :: lru[i].lastUsedAt <= lru[j].lastUsedAt)
      && VramOf(lru) == VramOf(ActiveOthers(models, name))
  {
    var key := (m: Model) => m.lastUsedAt;
    var others := ActiveOthers(models, name);
    StableSort.SortIsSorted(others, key);
    ActiveOthersDistinct(models, name);
    SortKeepsNamesDistinct(others, key);
    VramOfSort(others, key);
    forall m ensures m in LruOthers(models, name) <==> m in models && m.state == Active && m.name != name {
      StableSort.SortHasSameItems(others, key, m);
      ActiveOthersAre(models, name, m);
    }
    var lru := LruOthers(models, name);
    forall i, j | 0 <= i < j < |lru| ensures lru[i].lastUsedAt <= lru[j].lastUsedAt {
      assert key(lru[i]) <= key(lru[j]);
    }
  }

  // ----- demoting a prefix of them --------------------------------------------------------

  function DemoteEach(s: Sched, candidates: seq<Model>, now: real): Sched
    decreases |candidates|
  {
    if candidates == [] then s
    else DemoteEach(Demote(s, candidates[0].name, "vram_pressure", now), candidates[1..], now)
  }

  /** How many candidates must go before excess megabytes have been freed. */
  function Needed(candidates: seq<Model>, excess: int): (k: nat)
    ensures k <= |candidates|
  {
    if excess <= 0 || candidates == [] then 0 else 1 + Needed(candidates[1..], excess - candidates[0].vram)
  }

  lemma {:induction false} NeededIsLeast(candidates: seq<Model>, excess: int)
    ensures var k := Needed(candidates, excess);
      && (VramOf(candidates) >= excess ==> VramOf(candidates[..k]) >= excess)
      && (forall j | 0 <= j < k :: VramOf(candidates[..j]) < excess)
  {
    if excess > 0 && candidates != [] {
      NeededIsLeast(candidates[1..], excess - candidates[0].vram);
      var k := Needed(candidates, excess);
      forall j | 0 < j <= |candidates|
        ensures VramOf(candidates[..j]) == candidates[0].vram + VramOf(candidates[1..][..j - 1])
      {
        assert candidates[..j][1..] == candidates[1..][..j - 1];
      }
    }
  }

  /** Each listed model is registered, still Active and as it was when the list was made. */
  ghost predicate Listed(s: Sched, candidates: seq<Model>)
  {
    && DistinctNames(s.models) && DistinctNames(candidates)
    && forall c | c in candidates :: c in s.models && c.state == Active
  }

  lemma PositionOf(models: seq<Model>, m: Model)
    requires DistinctNames(models) && m in models
    ensures Find(models, m.name) < |models| && models[Find(models, m.name)] == m
  {
    var j :| 0 <= j < |models| && models[j] == m;
    FindAt(models, j);
  }

  lemma DemoteListed(s: Sched, candidates: seq<Model>, now: real)
    requires Listed(s, candidates) && candidates != []
    ensures var c := candidates[0]; var i := Find(s.models, c.name);
      var r := Demote(s, c.name, "vram_pressure", now);
      && i < |s.models| && s.models[i] == c
      && MovedDown(s, r, i) && r.models[i].state != Active
      && Listed(r, candidates[1..])
      && VramUsed(r) == VramUsed(s) - c.vram
  {
    var c := candidates[0];
    PositionOf(s.models, c);
    var i := Find(s.models, c.name);
    DemoteMovesDown(s, i, "vram_pressure", now);
    var r := Demote(s, c.name, "vram_pressure", now);
    forall d | d in candidates[1..] ensures d in r.models {
      var k :| 0 <= k < |candidates[1..]| && candidates[1..][k] == d;
      assert candidates[k + 1] == d;
      PositionOf(s.models, d);
      assert r.models[Find(s.models, d.name)] == d;
    }
  }

  lemma {:induction false} FreeVramIsAPrefix(s: Sched, missing: nat, candidates: seq<Model>, now: real)
    requires Listed(s, candidates)
    ensures var k := Needed(candidates, VramUsed(s) + missing - s.budget.vram);
      FreeVram(s, missing, candidates, now) == DemoteEach(s, candidates[..k], now)
    decreases |candidates|
  {
    if VramUsed(s) + missing > s.budget.vram && candidates != [] {
      DemoteListed(s, candidates, now);
      var next := Demote(s, candidates[0].name, "vram_pressure", now);
      FreeVramIsAPrefix(next, missing, candidates[1..], now);
      var k := Needed(candidates, VramUsed(s) + missing - s.budget.vram);
      assert candidates[..k][1..] == candidates[1..][..k - 1];
    }
  }

  ghost predicate NameIn(candidates: seq<Model>, name: string)
  {
    exists c | c in candidates :: c.name == name
  }

  lemma {:induction false} DemoteEachEffect(s: Sched, candidates: seq<Model>, now: real)
    requires Listed(s, candidates)
    ensures var r := DemoteEach(s, candidates, now);
      && |r.models| == |s.models| && r.budget == s.budget && r.holder == s.holder
      && DistinctNames(r.models)
      && VramUsed(r) == VramUsed(s) - VramOf(candidates)
      && (Inv(s) ==> Inv(r))
      && (forall init | LogExplains(init, s) :: LogExplains(init, r))
    decreases |candidates|
  {
    if candidates != [] {
      var c := candidates[0];
      DemoteListed(s, candidates, now);
      var next := Demote(s, c.name, "vram_pressure", now);
      if Inv(s) {
        MovedDownKeepsInv(s, next, Find(s.models, c.name));
      }
      DemoteEachEffect(next, candidates[1..], now);
    }
  }

  /** A model is demoted when its name is listed and unchanged otherwise. */
  lemma {:induction false} DemoteEachAt(s: Sched, candidates: seq<Model>, i: nat, now: real)
    requires Listed(s, candidates) && i < |s.models|
    ensures var r := DemoteEach(s, candidates, now);
      && |r.models| == |s.models|
      && r.models[i] == s.models[i].(state := r.models[i].state)
      && (if NameIn(candidates, s.models[i].name) then r.models[i].state != Active else r.models[i] == s.models[i])
    decreases |candidates|
  {
    if candidates != [] {
      var c, rest := candidates[0], candidates[1..];
      DemoteListed(s, candidates, now);
      var next := Demote(s, c.name, "vram_pressure", now);
      DemoteEachAt(next, rest, i, now);
      NameInCons(candidates, s.models[i].name);
      if i == Find(s.models, c.name) {
        HeadIsNotRepeated(candidates);
      }
    }
  }

  lemma NameInCons(candidates: seq<Model>, name: string)
    requires candidates != []
    ensures NameIn(candidates, name) <==> candidates[0].name == name || NameIn(candidates[1..], name)
  {
    assert candidates == [candidates[0]] + candidates[1..];
    assert candidates[0] in candidates;
    assert forall c | c in candidates[1..] :: c in candidates;
  }

  lemma HeadIsNotRepeated(candidates: seq<Model>)
    requires DistinctNames(candidates) && candidates != []
    ensures !NameIn(candidates[1..], candidates[0].name)
  {
    var rest := candidates[1..];
    forall q | q in rest ensures q.name != candidates[0].name {
      var k :| 0 <= k < |rest| && rest[k] == q;
      assert candidates[k + 1] == q;
    }
  }

  // ----- acquire ------------------------------------------------------------------------------

  /** The models that acquire demotes. */
  function Evicted(s: Sched, name: string): seq<Model>
    requires Find(s.models, name) < |s.models|
  {
    var lru := LruOthers(s.models, name);
    lru[..Needed(lru, VramUsed(s) + Missing(s.models[Find(s.models, name)]) - s.budget.vram)]
  }

  lemma {:induction false} PrefixListed(s: Sched, candidates: seq<Model>, k: nat)
    requires Listed(s, candidates) && k <= |candidates|
    ensures Listed(s, candidates[..k])
  {
  }

  lemma EnoughCandidates(s: Sched, name: string)
    requires Inv(s) && Find(s.models, name) < |s.models|
    ensures VramUsed(s) + Missing(s.models[Find(s.models, name)]) - VramOf(LruOthers(s.models, name)) <= s.budget.vram
  {
    LruOthersAre(s.models, name);
    ActiveLoadSplits(s.models, name);
    assert s.models[Find(s.models, name)] in s.models;
  }

  lemma LruIsListed(s: Sched, name: string)
    requires DistinctNames(s.models)
    ensures Listed(s, LruOthers(s.models, name)) && !NameIn(LruOthers(s.models, name), name)
  {
    LruOthersAre(s.models, name);
  }

  lemma PrefixFacts(s: Sched, lru: seq<Model>, name: string, excess: int)
    requires Listed(s, lru) && !NameIn(lru, name) && VramOf(lru) >= excess
    ensures var k := Needed(lru, excess);
      && Listed(s, lru[..k]) && !NameIn(lru[..k], name)
      && VramOf(lru[..k]) >= excess
      && (forall j | 0 <= j < k :: VramOf(lru[..j]) < excess)
  {
    NeededIsLeast(lru, excess);
    PrefixListed(s, lru, Needed(lru, excess));
  }

  lemma DemoteEachSpares(s: Sched, candidates: seq<Model>, i: nat, now: real)
    requires Listed(s, candidates) && i < |s.models| && !NameIn(candidates, s.models[i].name)
    ensures var r := DemoteEach(s, candidates, now);
      && |r.models| == |s.models| && r.models[i] == s.models[i]
      && VramUsed(r) == VramUsed(s) - VramOf(candidates)
  {
    DemoteEachEffect(s, candidates, now);
    DemoteEachAt(s, candidates, i, now);
  }

  /** Freeing room by demoting the least recently used of a candidate list. */
  lemma FreeVramEffect(s: Sched, i: nat, missing: nat, lru: seq<Model>, now: real)
    requires i < |s.models|
    requires Listed(s, lru) && !NameIn(lru, s.models[i].name)
    requires VramOf(lru) >= VramUsed(s) + missing - s.budget.vram
    ensures var k := Needed(lru, VramUsed(s) + missing - s.budget.vram);
      var freed := FreeVram(s, missing, lru, now);
      && freed == DemoteEach(s, lru[..k], now)
      && VramUsed(freed) + missing <= s.budget.vram
      && freed.models[i] == s.models[i]
  {
    var excess := VramUsed(s) + missing - s.budget.vram;
    PrefixFacts(s, lru, s.models[i].name, excess);
    FreeVramIsAPrefix(s, missing, lru, now);
    DemoteEachSpares(s, lru[..Needed(lru, excess)], i, now);
  }

  lemma EvictedIsListed(s: Sched, name: string)
    requires Inv(s) && Find(s.models, name) < |s.models|
    ensures Listed(s, Evicted(s, name))
  {
    LruIsListed(s, name);
    EnoughCandidates(s, name);
    PrefixFacts(s, LruOthers(s.models, name), name,
                VramUsed(s) + Missing(s.models[Find(s.models, name)]) - s.budget.vram);
  }

  lemma AcquireFits(s: Sched, name: string, now: real)
    requires Inv(s) && Find(s.models, name) < |s.models|
    ensures var i := Find(s.models, name);
      var freed := FreeVram(s, Missing(s.models[i]), LruOthers(s.models, name), now);
      && freed == DemoteEach(s, Evicted(s, name), now)
      && VramUsed(freed) + Missing(s.models[i]) <= s.budget.vram
      && freed.models[i] == s.models[i]
  {
    EnoughCandidates(s, name);
    EnoughMeansFits(s, name, now);
  }

  lemma EnoughMeansFits(s: Sched, name: string, now: real)
    requires DistinctNames(s.models) && Find(s.models, name) < |s.models|
    requires VramUsed(s) + Missing(s.models[Find(s.models, name)]) - VramOf(LruOthers(s.models, name)) <= s.budget.vram
    ensures var i := Find(s.models, name);
      var freed := FreeVram(s, Missing(s.models[i]), LruOthers(s.models, name), now);
      && freed == DemoteEach(s, Evicted(s, name), now)
      && VramUsed(freed) + Missing(s.models[i]) <= s.budget.vram
      && freed.models[i] == s.models[i]
  {
    var i := Find(s.models, name);
    LruIsListed(s, name);
    FreeVramEffect(s, i, Missing(s.models[i]), LruOthers(s.models, name), now);
  }

  /** Acquiring a registered model while no training lock is held always ends Active;
      the cannot-fit error after eviction is unreachable. */
  lemma AcquireAlwaysSucceeds(s: Sched, name: string, now: real)
    requires Inv(s)
    ensures Acquire(s, name, now).1 ==
      if s.holder.Some? then Err(TrainingInProgress)
      else if Find(s.models, name) == |s.models| then Err(UnknownModel)
      else Ok(Active)
  {
    if s.holder.None? && Find(s.models, name) < |s.models| {
      AcquireFits(s, name, now);
    }
  }

  /** The evicted models are the shortest prefix, in order of last use, of the other Active models whose
      removal makes the incoming model fit; re-acquiring an Active model evicts nothing. */
  lemma EvictedIsTheShortestLruPrefix(s: Sched, name: string)
    requires Inv(s) && Find(s.models, name) < |s.models|
    ensures var m := s.models[Find(s.models, name)]; var lru := LruOthers(s.models, name);
      && Evicted(s, name) <= lru
      && VramUsed(s) + Missing(m) - VramOf(Evicted(s, name)) <= s.budget.vram
      && (forall j | 0 <= j < |Evicted(s, name)| :: VramUsed(s) + Missing(m) - VramOf(lru[..j]) > s.budget.vram)
      && (m.state == Active ==> Evicted(s, name) == [])
  {
    LruIsListed(s, name);
    EnoughCandidates(s, name);
    PrefixFacts(s, LruOthers(s.models, name), name,
                VramUsed(s) + Missing(s.models[Find(s.models, name)]) - s.budget.vram);
  }

  lemma InListByName(s: Sched, candidates: seq<Model>, j: nat)
    requires Listed(s, candidates) && j < |s.models|
    ensures NameIn(candidates, s.models[j].name) <==> s.models[j] in candidates
  {
    if NameIn(candidates, s.models[j].name) {
      var c :| c in candidates && c.name == s.models[j].name;
      PositionOf(s.models, c);
      FindAt(s.models, j);
    }
  }

  /** Acquire makes its model Active and just used, moves exactly the evicted models out of the Active
      tier and leaves every other model as it was. */
  lemma AcquireMovesExactlyTheEvicted(s: Sched, name: string, now: real)
    requires Inv(s) && s.holder.None? && Find(s.models, name) < |s.models|
    ensures var i := Find(s.models, name); var r := Acquire(s, name, now).0;
      && |r.models| == |s.models|
      && r.models[i] == s.models[i].(state := Active, lastUsedAt := now)
      && (forall j | 0 <= j < |s.models| && j != i ::
            && r.models[j] == s.models[j].(state := r.models[j].state)
            && (if s.models[j] in Evicted(s, name) then r.models[j].state != Active else r.models[j] == s.models[j]))
  {
    AcquireFits(s, name, now);
    EvictedIsListed(s, name);
    var out := Evicted(s, name);
    var freed := DemoteEach(s, out, now);
    var r := Acquire(s, name, now).0;
    var i := Find(s.models, name);
    DemoteEachEffect(s, out, now);
    assert r.models == freed.models[i := s.models[i].(state := Active, lastUsedAt := now)];
    forall j | 0 <= j < |s.models| && j != i
      ensures r.models[j] == s.models[j].(state := r.models[j].state)
      ensures if s.models[j] in out then r.models[j].state != Active else r.models[j] == s.models[j]
    {
      DemoteEachAt(s, out, j, now);
      InListByName(s, out, j);
    }
  }

  lemma StatesIgnoreLastUse(models: seq<Model>, i: nat, at: real)
    requires i < |models| && DistinctNames(models)
    ensures var next := models[i := models[i].(lastUsedAt := at)];
      DistinctNames(next) && States(next) == States(models)
      && Load(next, Active) == Load(models, Active) && Load(next, Warm) == Load(models, Warm)
  {
    var m := models[i].(lastUsedAt := at);
    StatesAfterUpdate(models, i, m);
    StatesLookup(models);
    assert States(models)[m.name := m.state] == States(models);
    LoadAfterUpdate(models, i, m, Active);
    LoadAfterUpdate(models, i, m, Warm);
  }

  /** Activating model i where it fits keeps every invariant. */
  lemma ActivateKeepsInv(s: Sched, i: nat, reason: string, now: real)
    requires Inv(s) && i < |s.models|
    requires VramUsed(s) + Missing(s.models[i]) <= s.budget.vram
    ensures var r := Activate(s, i, reason, now);
      && Inv(r) && r.budget == s.budget && r.holder == s.holder
      && forall init | LogExplains(init, s) :: LogExplains(init, r)
  {
    var active := Record(s, i, Active, reason, now);
    RecordChangesLoads(s, i, Active, reason, now);
    StatesAfterUpdate(s.models, i, active.models[i]);
    StatesIgnoreLastUse(active.models, i, now);
    var r := active.(models := active.models[i := active.models[i].(lastUsedAt := now)]);
    forall m | m in r.models ensures m.vram <= r.budget.vram {
      var k :| 0 <= k < |r.models| && r.models[k] == m;
      assert s.models[k] in s.models;
    }
    forall init | LogExplains(init, s) ensures LogExplains(init, r) {
      RecordKeepsTheLog(init, s, i, Active, reason, now);
    }
  }

  lemma AcquireKeepsInv(s: Sched, name: string, now: real)
    requires Inv(s)
    ensures Inv(Acquire(s, name, now).0)
    ensures Acquire(s, name, now).0.budget == s.budget && Acquire(s, name, now).0.holder == s.holder
    ensures forall init | LogExplains(init, s) :: LogExplains(init, Acquire(s, name, now).0)
  {
    var i := Find(s.models, name);
    if s.holder.None? && i < |s.models| {
      AcquireSteps(s, name, now);
      AcquireFits(s, name, now);
      EvictedIsListed(s, name);
      DemoteEachEffect(s, Evicted(s, name), now);
      ActivateKeepsInv(DemoteEach(s, Evicted(s, name), now), i, AcquireReason(s.models[i].state), now);
    }
  }

  lemma AcquireSteps(s: Sched, name: string, now: real)
    requires Inv(s) && s.holder.None? && Find(s.models, name) < |s.models|
    ensures var i := Find(s.models, name); var freed := DemoteEach(s, Evicted(s, name), now);
      i < |freed.models|
      && Acquire(s, name, now) == (Activate(freed, i, AcquireReason(s.models[i].state), now), Ok(Active))
  {
    AcquireFits(s, name, now);
  }

  // ----- registration ----------------------------------------------------------------------------

  /** Registering keeps the budgets exactly when the tier that the new record claims has room for it. */
  lemma RegisterKeepsBudgetsIff(s: Sched, m: Model)
    requires Inv(s) && m.vram <= s.budget.vram
    ensures var i := Find(s.models, m.name);
      var freedVram := if i < |s.models| then Weight(s.models[i], Active) else 0;
      var freedRam := if i < |s.models| then Weight(s.models[i], Warm) else 0;
      Inv(Register(s, m).0) <==>
        && (m.state == Active ==> VramUsed(s) - freedVram + m.vram <= s.budget.vram)
        && (m.state == Warm ==> RamUsed(s) - freedRam + m.ram <= s.budget.ram)
  {
    var i := Find(s.models, m.name);
    var r := Register(s, m).0;
    if i < |s.models| {
      LoadAfterUpdate(s.models, i, m, Active);
      LoadAfterUpdate(s.models, i, m, Warm);
      StatesAfterUpdate(s.models, i, m);
    } else {
      LoadAfterAppend(s.models, m, Active);
      LoadAfterAppend(s.models, m, Warm);
    }
    forall q | q in r.models ensures q.vram <= r.budget.vram {
      assert q == m || q in s.models;
    }
  }

  /** Replacing a registered name keeps the log meaningful exactly when the new record has the old state. */
  lemma ReplacingKeepsTheLogIff(init: map<string, RuntimeState>, s: Sched, m: Model)
    requires DistinctNames(s.models) && LogExplains(init, s) && m.vram <= s.budget.vram
    requires Find(s.models, m.name) < |s.models|
    ensures LogExplains(init, Register(s, m).0) <==> m.state == s.models[Find(s.models, m.name)].state
  {
    var i := Find(s.models, m.name);
    StatesAfterUpdate(s.models, i, m);
    StatesLookup(s.models);
    if m.state == s.models[i].state {
      assert States(s.models)[m.name := m.state] == States(s.models);
    } else {
      assert States(s.models)[m.name := m.state][m.name] != States(s.models)[m.name];
    }
  }

  lemma {:induction false} FreshNameInReplay(
      init: map<string, RuntimeState>, log: seq<Event>, name: string, state: RuntimeState)
    requires LegalLog(init, log) && name !in Replay(init, log)
    ensures LegalLog(init[name := state], log)
    ensures Replay(init[name := state], log) == Replay(init, log)[name := state]
  {
    if log != [] {
      var shorter, e := log[..|log| - 1], log[|log| - 1];
      var before := Replay(init, shorter);
      FreshNameInReplay(init, shorter, name, state);
      assert e.name != name;
      assert before[name := state][e.name := e.to] == before[e.name := e.to][name := state];
    }
  }

  lemma RegisterFreshKeepsTheLog(init: map<string, RuntimeState>, s: Sched, m: Model)
    requires Inv(s) && LogExplains(init, s) && m.vram <= s.budget.vram
    requires Find(s.models, m.name) == |s.models|
    ensures LogExplains(init[m.name := m.state], Register(s, m).0)
  {
    StatesLookup(s.models);
    FreshNameInReplay(init, s.log, m.name, m.state);
    assert (s.models + [m])[..|s.models|] == s.models;
  }

  // ----- whole runs ---------------------------------------------------------------------------------

  /** Registrations are of fresh names and unloaded models, the hypothesis of the source's callers. */
  ghost predicate Proper(s: Sched, op: Op)
  {
    op.DoRegister? ==> op.model.state == Cold && Find(s.models, op.model.name) == |s.models|
  }

  /** The states that the models of a run were registered with. */
  function Registered(s: Sched, op: Op, init: map<string, RuntimeState>): map<string, RuntimeState>
  {
    if op.DoRegister? && op.model.vram <= s.budget.vram then init[op.model.name := op.model.state] else init
  }

  lemma StepKeepsEverything(s: Sched, op: Op, init: map<string, RuntimeState>)
    requires Inv(s) && LogExplains(init, s) && Proper(s, op)
    ensures Inv(Apply(s, op)) && LogExplains(Registered(s, op, init), Apply(s, op))
    ensures Apply(s, op).budget == s.budget
  {
    match op {
      case DoRegister(m) =>
        if m.vram <= s.budget.vram {
          RegisterFreshKeepsEverything(s, m, init);
        }
      case DoAcquire(name, now) => AcquireKeepsInv(s, name, now);
      case DoDemote(name, reason, now) => DemoteKeepsEverything(s, name, reason, now, init);
      case DoEvict(name, reason, now) => EvictKeepsEverything(s, name, reason, now, init);
      case DoTick(now, clock) => TickKeeps(s, 0, now, clock);
      case DoTryBegin(holder) =>
      case DoEnd =>
    }
  }

  lemma RegisterFreshKeepsEverything(s: Sched, m: Model, init: map<string, RuntimeState>)
    requires Inv(s) && LogExplains(init, s) && m.vram <= s.budget.vram
    requires m.state == Cold && Find(s.models, m.name) == |s.models|
    ensures var r := Register(s, m).0;
      Inv(r) && LogExplains(init[m.name := m.state], r) && r.budget == s.budget
  {
    RegisterKeepsBudgetsIff(s, m);
    RegisterFreshKeepsTheLog(init, s, m);
  }

  lemma DemoteKeepsEverything(s: Sched, name: string, reason: string, now: real, init: map<string, RuntimeState>)
    requires Inv(s) && LogExplains(init, s)
    ensures var r := Demote(s, name, reason, now);
      Inv(r) && LogExplains(init, r) && r.budget == s.budget
  {
    var i := Find(s.models, name);
    if i < |s.models| {
      DemoteMovesDown(s, i, reason, now);
      MovedDownKeepsInv(s, Demote(s, name, reason, now), i);
    }
  }

  lemma EvictKeepsEverything(s: Sched, name: string, reason: string, now: real, init: map<string, RuntimeState>)
    requires Inv(s) && LogExplains(init, s)
    ensures var r := Evict(s, name, reason, now);
      Inv(r) && LogExplains(init, r) && r.budget == s.budget
  {
    var i := Find(s.models, name);
    if i < |s.models| {
      EvictMovesDown(s, i, reason, now);
      MovedDownKeepsInv(s, Evict(s, name, reason, now), i);
    }
  }

  ghost predicate ProperRun(s: Sched, ops: seq<Op>)
    decreases |ops|
  {
    ops == [] || (Proper(s, ops[0]) && ProperRun(Apply(s, ops[0]), ops[1..]))
  }

  /** In every reachable state both budgets hold, and replaying the log from the registered states
      reproduces the current ones. */
  lemma {:induction false} RunKeepsEverything(s: Sched, ops: seq<Op>, init: map<string, RuntimeState>)
    returns (registered: map<string, RuntimeState>)
    requires Inv(s) && LogExplains(init, s) && ProperRun(s, ops)
    requires forall n | n in init :: init[n] == Cold
    ensures Inv(Run(s, ops)) && LogExplains(registered, Run(s, ops))
    ensures forall n | n in registered :: registered[n] == Cold
    decreases |ops|
  {
    registered := init;
    if ops != [] {
      StepKeepsEverything(s, ops[0], init);
      registered := RunKeepsEverything(Apply(s, ops[0]), ops[1..], Registered(s, ops[0], init));
    }
  }

  lemma EveryReachableStateIsSound(b: Budget, ops: seq<Op>)
    requires ProperRun(Empty(b), ops)
    ensures var s := Run(Empty(b), ops);
      && Inv(s)
      && exists init | LogExplains(init, s) :: forall n | n in init :: init[n] == Cold
  {
    var init: map<string, RuntimeState> := map[];
    assert LogExplains(init, Empty(b));
    var registered := RunKeepsEverything(Empty(b), ops, init);
  }
}
