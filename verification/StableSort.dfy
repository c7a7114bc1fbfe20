/** Python's `sorted(items, key=...)`: ascending by a numeric key, stable.
    A descending sort (`reverse=True`) is the same sort on the negated key,
    because Python keeps the original order of equal items in both directions. */
module StableSort {

  ghost predicate SortedBy<T>(items: seq<T>, key: T -> real)
  {
    forall i, j | 0 <= i < j < |items| :: key(items[i]) <= key(items[j])
  }

  /** The items that share one key, in the order in which they appear. */
  function WithKey<T>(items: seq<T>, key: T -> real, k: real): (same: seq<T>)
  {
    if items == [] then []
    else Matching(items[0], key, k) + WithKey(items[1..], key, k)
  }

  function Matching<T>(x: T, key: T -> real, k: real): seq<T>
  {
    if key(x) == k then [x] else []
  }

  function Insert<T>(x: T, sorted: seq<T>, key: T -> real): (r: seq<T>)
    ensures |r| == |sorted| + 1
  {
    if sorted == [] || key(x) <= key(sorted[0]) then [x] + sorted
    else [sorted[0]] + Insert(x, sorted[1..], key)
  }

  function Sort<T>(items: seq<T>, key: T -> real): (r: seq<T>)
    ensures |r| == |items|
  {
    if items == [] then [] else Insert(items[0], Sort(items[1..], key), key)
  }

  lemma {:induction false} InsertAddsItem<T>(x: T, sorted: seq<T>, key: T -> real)
    ensures multiset(Insert(x, sorted, key)) == multiset{x} + multiset(sorted)
  {
    if sorted != [] && key(sorted[0]) < key(x) {
      InsertAddsItem(x, sorted[1..], key);
      assert sorted == [sorted[0]] + sorted[1..];
    }
  }

  /** The result is a permutation of the items. */
  lemma {:induction false} SortIsAPermutation<T>(items: seq<T>, key: T -> real)
    ensures multiset(Sort(items, key)) == multiset(items)
  {
    if items != [] {
      SortIsAPermutation(items[1..], key);
      InsertAddsItem(items[0], Sort(items[1..], key), key);
      assert items == [items[0]] + items[1..];
    }
  }

  lemma {:induction false} InsertKeepsOrder<T>(x: T, sorted: seq<T>, key: T -> real)
    requires SortedBy(sorted, key)
    ensures SortedBy(Insert(x, sorted, key), key)
  {
    if sorted != [] && key(sorted[0]) < key(x) {
      InsertKeepsOrder(x, sorted[1..], key);
      var rest := Insert(x, sorted[1..], key);
      InsertAddsItem(x, sorted[1..], key);
      forall j | 0 <= j < |rest| ensures key(sorted[0]) <= key(rest[j]) {
        assert rest[j] in multiset(rest);
        assert rest[j] == x || rest[j] in sorted[1..];
      }
    }
  }

  lemma {:induction false} SortIsSorted<T>(items: seq<T>, key: T -> real)
    ensures SortedBy(Sort(items, key), key)
  {
    if items != [] {
      SortIsSorted(items[1..], key);
      InsertKeepsOrder(items[0], Sort(items[1..], key), key);
    }
  }

  lemma WithKeyOfCons<T>(head: T, rest: seq<T>, key: T -> real, k: real)
    ensures WithKey([head] + rest, key, k) == Matching(head, key, k) + WithKey(rest, key, k)
  {
    assert ([head] + rest)[1..] == rest;
  }

  /** Which items share a key. */
  lemma {:induction false} WithKeyOfOneMore<T>(items: seq<T>, x: T, key: T -> real, k: real)
    ensures WithKey(items + [x], key, k) == WithKey(items, key, k) + if key(x) == k then [x] else []
  {
    if items == [] {
      assert items + [x] == [x] && [x][1..] == [];
    } else {
      assert (items + [x])[1..] == items[1..] + [x];
      WithKeyOfOneMore(items[1..], x, key, k);
    }
  }

  lemma SwapWithEmpty<T>(a: seq<T>, b: seq<T>, c: seq<T>)
    requires a == [] || b == []
    ensures a + (b + c) == b + (a + c)
  {
  }

  lemma {:induction false} InsertIsStable<T>(x: T, sorted: seq<T>, key: T -> real, k: real)
    ensures WithKey(Insert(x, sorted, key), key, k) == Matching(x, key, k) + WithKey(sorted, key, k)
  {
    if sorted == [] || key(x) <= key(sorted[0]) {
      WithKeyOfCons(x, sorted, key, k);
    } else {
      var head, rest := sorted[0], sorted[1..];
      InsertIsStable(x, rest, key, k);
      WithKeyOfCons(head, Insert(x, rest, key), key, k);
      SwapWithEmpty(Matching(head, key, k), Matching(x, key, k), WithKey(rest, key, k));
    }
  }

  /** Items with equal keys keep their order; with SortIsSorted and SortIsAPermutation this determines the result
      completely. */
  lemma {:induction false} SortIsStable<T>(items: seq<T>, key: T -> real, k: real)
    ensures WithKey(Sort(items, key), key, k) == WithKey(items, key, k)
  {
    if items != [] {
      SortIsStable(items[1..], key, k);
      InsertIsStable(items[0], Sort(items[1..], key), key, k);
    }
  }

  lemma {:induction false} SortOfSorted<T>(items: seq<T>, key: T -> real)
    requires SortedBy(items, key)
    ensures Sort(items, key) == items
  {
    if items != [] {
      SortOfSorted(items[1..], key);
      assert |items| > 1 ==> key(items[0]) <= key(items[1]);
    }
  }

  lemma SortHasSameItems<T>(items: seq<T>, key: T -> real, x: T)
    ensures x in Sort(items, key) <==> x in items
  {
    SortIsAPermutation(items, key);
    assert x in multiset(Sort(items, key)) <==> x in multiset(items);
  }
}
