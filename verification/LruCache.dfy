/** The bounded snapshot cache (core/project/atomic_io.py:101-116 and 223-227): an ordered dictionary
    whose last entry is the most recently touched one. */
module LruCache {
  import opened Wrappers

  const MAX_TRACKED_PATHS: nat := 512

  function Without<K(==)>(keys: seq<K>, k: K): seq<K>
  {
    if keys == [] then []
    else (if keys[0] == k then [] else [keys[0]]) + Without(keys[1..], k)
  }

  function Last<K>(keys: seq<K>, n: nat): seq<K>
  {
    if |keys| <= n then keys else keys[|keys| - n..]
  }

  /** The distinct keys of a history of touches, in the order in which they were last touched. */
  function Recent<K(==)>(touched: seq<K>): seq<K>
    decreases |touched|
  {
    if touched == [] then []
    else
      var k := touched[|touched| - 1];
      Without(Recent(touched[..|touched| - 1]), k) + [k]
  }

  function Members<K(==)>(keys: seq<K>): set<K> { set k | k in keys }

  lemma OldestIsNotRepeated<K>(keys: seq<K>)
    requires keys != [] && NoRepeats(keys)
    ensures NoRepeats(keys[1..]) && keys[0] !in keys[1..]
    ensures Members(keys) == {keys[0]} + Members(keys[1..])
  {
    var rest := keys[1..];
    assert forall i | 0 <= i < |rest| :: rest[i] == keys[i + 1];
    assert keys == [keys[0]] + rest;
  }

  class SnapshotCache<K(==), V> {
    var keys: seq<K>
    var values: map<K, V>
    ghost var touched: seq<K>

    /** The cache holds exactly the most recently touched keys, in that order. */
    ghost predicate Valid()
      reads this
    {
      && keys == Last(Recent(touched), MAX_TRACKED_PATHS)
      && values.Keys == Members(keys)
    }

    constructor ()
      ensures Valid() && touched == [] && values == map[]
    {
      keys, values, touched := [], map[], [];
    }

    method PopOldest()
      requires keys != [] && NoRepeats(keys) && values.Keys == Members(keys)
      modifies this`keys, this`values
      ensures keys == old(keys)[1..] && NoRepeats(keys) && values.Keys == Members(keys)
      ensures forall j | j in values :: j in old(values) && values[j] == old(values)[j]
    {
      var oldest, rest := keys[0], keys[1..];
      OldestIsNotRepeated(keys);
      values := map j | j in values && j != oldest :: values[j];
      keys := rest;
    }

    /** Evicts from the old end until the bound holds. */
    method Shrink()
      requires NoRepeats(keys) && values.Keys == Members(keys)
      modifies this`keys, this`values
      ensures keys == Last(old(keys), MAX_TRACKED_PATHS) && values.Keys == Members(keys)
      ensures forall j | j in values :: j in old(values) && values[j] == old(values)[j]
    {
      while |keys| > MAX_TRACKED_PATHS
        invariant NoRepeats(keys) && values.Keys == Members(keys)
        invariant |keys| <= |old(keys)| && keys == old(keys)[|old(keys)| - |keys|..]
        invariant keys == old(keys) || |keys| >= MAX_TRACKED_PATHS
        invariant forall j | j in values :: j in old(values) && values[j] == old(values)[j]
        decreases |keys|
      {
        PopOldest();
      }
    }

    method BoundedSet(k: K, v: V)
      requires Valid()
      modifies this
      ensures Valid() && touched == old(touched) + [k]
      ensures k in values && values[k] == v
      ensures |keys| <= MAX_TRACKED_PATHS
      ensures forall j | j in values && j != k :: j in old(values) && values[j] == old(values)[j]
    {
      TouchedAgain(touched, k);
      MovedToTheEnd(keys, k);
      keys := Without(keys, k) + [k];
      values := values[k := v];
      touched := touched + [k];
      ghost var all := keys;
      Shrink();
      assert keys[|keys| - 1] == all[|all| - 1] == k;
      assert k in Members(keys);
    }

    /** The fallback of a failed read; a hit also makes the key the most recent one. */
    method Hit(k: K) returns (v: Option<V>)
      requires Valid()
      modifies this`keys, this`touched
      ensures Valid() && values == old(values)
      ensures v == if k in values then Some(values[k]) else None
      ensures touched == if k in values then old(touched) + [k] else old(touched)
    {
      if k !in values {
        return None;
      }
      assert k in keys;
      TouchedAgain(touched, k);
      MovedToTheEnd(keys, k);
      assert Members(keys) + {k} == Members(keys);
      keys := Without(keys, k) + [k];
      touched := touched + [k];
      return Some(values[k]);
    }
  }

  // ----- properties of the eviction order ----------------------------------------------------

  ghost predicate NoRepeats<K>(keys: seq<K>)
  {
    forall i, j | 0 <= i < j < |keys| :: keys[i] != keys[j]
  }

  lemma {:induction false} MembersOfWithout<K>(keys: seq<K>, k: K)
    ensures forall j :: j in Without(keys, k) <==> j in keys && j != k
  {
    if keys != [] {
      MembersOfWithout(keys[1..], k);
      assert forall j :: j in keys <==> j == keys[0] || j in keys[1..];
    }
  }

  lemma {:induction false} WithoutAbsent<K>(keys: seq<K>, k: K)
    requires k !in keys
    ensures Without(keys, k) == keys
  {
    if keys != [] {
      WithoutAbsent(keys[1..], k);
    }
  }

  lemma {:induction false} WithoutConcat<K>(a: seq<K>, b: seq<K>, k: K)
    ensures Without(a + b, k) == Without(a, k) + Without(b, k)
  {
    if a == [] {
      assert a + b == b;
    } else {
      assert (a + b)[1..] == a[1..] + b;
      WithoutConcat(a[1..], b, k);
    }
  }

  lemma {:induction false} WithoutKeepsNoRepeats<K>(keys: seq<K>, k: K)
    requires NoRepeats(keys)
    ensures NoRepeats(Without(keys, k))
  {
    if keys != [] {
      var rest := keys[1..];
      assert forall i | 0 <= i < |rest| :: rest[i] == keys[i + 1];
      WithoutKeepsNoRepeats(rest, k);
      MembersOfWithout(rest, k);
      assert keys[0] !in rest;
    }
  }

  lemma {:induction false} WithoutShortens<K>(keys: seq<K>, k: K)
    requires NoRepeats(keys)
    ensures |Without(keys, k)| == |keys| - (if k in keys then 1 else 0)
  {
    if keys != [] {
      var rest := keys[1..];
      assert forall i | 0 <= i < |rest| :: rest[i] == keys[i + 1];
      assert keys[0] !in rest;
      WithoutShortens(rest, k);
      if keys[0] == k {
        WithoutAbsent(rest, k);
      }
    }
  }

  lemma NoRepeatsSnoc<K>(keys: seq<K>, k: K)
    requires NoRepeats(keys) && k !in keys
    ensures NoRepeats(keys + [k])
  {
  }

  lemma MovedToTheEnd<K>(keys: seq<K>, k: K)
    requires NoRepeats(keys)
    ensures NoRepeats(Without(keys, k) + [k])
    ensures |Without(keys, k)| == |keys| - (if k in keys then 1 else 0)
    ensures Members(Without(keys, k) + [k]) == Members(keys) + {k}
    ensures forall j :: j in Without(keys, k) + [k] <==> j in keys || j == k
  {
    MembersOfWithout(keys, k);
    WithoutKeepsNoRepeats(keys, k);
    WithoutShortens(keys, k);
    NoRepeatsSnoc(Without(keys, k), k);
    var next := Without(keys, k) + [k];
    assert forall j :: j in next <==> j in Without(keys, k) || j == k;
    assert Members(next) == Members(keys) + {k};
  }

  lemma {:induction false} RecentHasNoRepeats<K>(touched: seq<K>)
    ensures NoRepeats(Recent(touched))
    ensures forall k :: k in Recent(touched) <==> k in touched
    decreases |touched|
  {
    if touched != [] {
      var n := |touched| - 1;
      var k := touched[n];
      RecentHasNoRepeats(touched[..n]);
      MovedToTheEnd(Recent(touched[..n]), k);
      assert touched == touched[..n] + [k];
    }
  }

  lemma LastOfConcat<K>(a: seq<K>, b: seq<K>, n: nat)
    requires |b| >= n || a == []
    ensures Last(a + b, n) == Last(b, n)
  {
    if a == [] {
      assert a + b == b;
    }
  }

  /** Moving a key to the end of the kept suffix keeps the suffix of the whole order. */
  lemma MoveInSuffix<K>(gone: seq<K>, kept: seq<K>, k: K, n: nat)
    requires NoRepeats(gone + kept) && (gone == [] || |kept| == n)
    ensures NoRepeats(kept)
    ensures Last(Without(kept, k) + [k], n) == Last(Without(gone + kept, k) + [k], n)
  {
    var all := gone + kept;
    assert forall i | 0 <= i < |kept| :: all[|gone| + i] == kept[i];
    assert NoRepeats(kept);
    WithoutConcat(gone, kept, k);
    MovedToTheEnd(kept, k);
    if k in kept {
      var i :| 0 <= i < |kept| && kept[i] == k;
      assert forall j | 0 <= j < |gone| :: all[j] == gone[j];
      assert k !in gone;
      WithoutAbsent(gone, k);
    }
    var next := Without(kept, k) + [k];
    assert Without(all, k) + [k] == Without(gone, k) + next;
    LastOfConcat(Without(gone, k), next, n);
  }

  /** Touching a key moves it to the end of what is kept, evicting the oldest entry only beyond the bound. */
  lemma TouchedAgain<K>(touched: seq<K>, k: K)
    ensures var kept := Last(Recent(touched), MAX_TRACKED_PATHS);
      && NoRepeats(kept) && |kept| <= MAX_TRACKED_PATHS
      && Last(Without(kept, k) + [k], MAX_TRACKED_PATHS) == Last(Recent(touched + [k]), MAX_TRACKED_PATHS)
  {
    var all := Recent(touched);
    var kept := Last(all, MAX_TRACKED_PATHS);
    RecentHasNoRepeats(touched);
    assert all == all[..|all| - |kept|] + kept;
    MoveInSuffix(all[..|all| - |kept|], kept, k, MAX_TRACKED_PATHS);
    assert (touched + [k])[..|touched|] == touched;
  }

  lemma WithoutAround<K>(older: seq<K>, k: K, recent: seq<K>, x: K)
    requires x != k
    ensures Without(older + [k] + recent, x) == Without(older, x) + [k] + Without(recent, x)
  {
    WithoutConcat(older + [k], recent, x);
    WithoutConcat(older, [k], x);
    WithoutAbsent([k], x);
  }

  lemma LastTouch<K>(before: seq<K>, after: seq<K>)
    requires after != []
    ensures var all := before + after; var n := |after| - 1;
      all[|all| - 1] == after[n] && all[..|all| - 1] == before + after[..n]
  {
  }

  lemma {:induction false} RecentAfterTouch<K>(before: seq<K>, k: K, after: seq<K>) returns (older: seq<K>)
    requires k !in after
    ensures Recent(before + [k] + after) == older + [k] + Recent(after)
    decreases |after|
  {
    var all := before + [k] + after;
    if after == [] {
      assert all[..|all| - 1] == before && all[|all| - 1] == k;
      older := Without(Recent(before), k);
      assert older + [k] + [] == older + [k];
    } else {
      var n := |after| - 1;
      LastTouch(before + [k], after);
      var inner := RecentAfterTouch(before, k, after[..n]);
      WithoutAround(inner, k, Recent(after[..n]), after[n]);
      older := Without(inner, after[n]);
      ConcatAssociates(older + [k], Without(Recent(after[..n]), after[n]), [after[n]]);
    }
  }

  lemma {:induction false} SizeOfDistinct<K>(keys: seq<K>)
    requires NoRepeats(keys)
    ensures |Members(keys)| == |keys|
  {
    if keys != [] {
      var rest := keys[1..];
      assert forall i | 0 <= i < |rest| :: rest[i] == keys[i + 1];
      SizeOfDistinct(rest);
      assert Members(keys) == {keys[0]} + Members(rest);
    }
  }

  /** A key stays in the cache exactly as long as fewer other distinct keys than the bound
      have been touched since its last touch. */
  lemma EvictedExactlyAfterTheBound<K>(before: seq<K>, k: K, after: seq<K>)
    requires k !in after
    ensures k in Last(Recent(before + [k] + after), MAX_TRACKED_PATHS) <==> |Members(after)| < MAX_TRACKED_PATHS
  {
    var older := RecentAfterTouch(before, k, after);
    var all := Recent(before + [k] + after);
    RecentHasNoRepeats(before + [k] + after);
    RecentHasNoRepeats(after);
    SizeOfDistinct(Recent(after));
    assert Members(Recent(after)) == Members(after);
    var at := |older|;
    assert all[at] == k && |all| == at + 1 + |Members(after)|;
    var kept := Last(all, MAX_TRACKED_PATHS);
    var skip := |all| - |kept|;
    assert forall i | 0 <= i < |kept| :: kept[i] == all[skip + i];
    if at >= skip {
      assert kept[at - skip] == k;
    }
  }
}
