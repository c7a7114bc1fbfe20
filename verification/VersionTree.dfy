/** The forest of asset versions (core/generation/service.py:425-518). */
module VersionTree {
  import opened Wrappers
  import StableSort

  type Id = string

  datatype Asset = Asset(id: Id, parent: Option<Id>, createdAt: real)

  datatype Node = Node(id: Id, parent: Option<Id>, createdAt: real, orphaned: bool)

  datatype Tree = Tree(nodes: seq<Node>, cycleDetected: bool, capped: bool)

  const TREE_NODE_CAP := 2000

  /** The dictionary of assets by id: a later asset replaces an earlier one. */
  function Lookup(assets: seq<Asset>, id: Id): (r: Option<Asset>)
    ensures r.Some? ==> r.value in assets && r.value.id == id
    ensures r.None? ==> forall a | a in assets :: a.id != id
  {
    if assets == [] then None
    else
      var last := assets[|assets| - 1];
      if last.id == id then Some(last) else Lookup(assets[..|assets| - 1], id)
  }

  /** Among assets with one id the last one counts. */
  lemma {:induction false} LookupIsTheLast(assets: seq<Asset>, id: Id)
    ensures Lookup(assets, id).Some? ==> exists i | 0 <= i < |assets| ::
      && Lookup(assets, id).value == assets[i] && assets[i].id == id
      && forall j | i < j < |assets| :: assets[j].id != id
  {
    if assets != [] && assets[|assets| - 1].id != id {
      LookupIsTheLast(assets[..|assets| - 1], id);
    }
  }

  function Ids(assets: seq<Asset>): set<Id> { set a | a in assets :: a.id }

  // ----- ancestor chains ------------------------------------------------------------------

  function Parent(assets: seq<Asset>, id: Id): Option<Id>
  {
    var a := Lookup(assets, id);
    if a.Some? then a.value.parent else None
  }

  /** The k-th ancestor; None once the chain has ended at a root or at a missing asset. */
  function Ancestor(assets: seq<Asset>, id: Id, k: nat): Option<Id>
  {
    if k == 0 then Some(id)
    else
      var a := Ancestor(assets, id, k - 1);
      if a.Some? then Parent(assets, a.value) else None
  }

  ghost predicate ChainEnds(assets: seq<Asset>, id: Id)
  {
    exists k: nat :: Ancestor(assets, id, k) == None
  }

  /** The chain comes back to an id that it has already passed. */
  ghost predicate ReachesCycle(assets: seq<Asset>, id: Id)
  {
    exists i: nat, j: nat ::
      i < j && Ancestor(assets, id, i).Some? && Ancestor(assets, id, i) == Ancestor(assets, id, j)
  }

  lemma {:induction false} AncestorsCompose(assets: seq<Asset>, id: Id, i: nat, k: nat)
    requires Ancestor(assets, id, i).Some?
    ensures Ancestor(assets, id, i + k) == Ancestor(assets, Ancestor(assets, id, i).value, k)
  {
    if k > 0 {
      AncestorsCompose(assets, id, i, k - 1);
    }
  }

  lemma {:induction false} EndedChainsStayEnded(assets: seq<Asset>, id: Id, i: nat, j: nat)
    requires i <= j && Ancestor(assets, id, j).Some?
    ensures Ancestor(assets, id, i).Some?
    decreases j - i
  {
    if i < j {
      EndedChainsStayEnded(assets, id, i, j - 1);
    }
  }

  lemma {:induction false} CyclesNeverEnd(assets: seq<Asset>, id: Id, i: nat, j: nat, k: nat)
    requires i < j && Ancestor(assets, id, i).Some? && Ancestor(assets, id, i) == Ancestor(assets, id, j)
    ensures Ancestor(assets, id, k).Some?
    decreases k
  {
    if k <= j {
      EndedChainsStayEnded(assets, id, k, j);
    } else {
      AncestorsCompose(assets, id, i, k - j);
      AncestorsCompose(assets, id, j, k - j);
      CyclesNeverEnd(assets, id, i, j, i + (k - j));
    }
  }

  /** v is one of the first n ids of the chain. */
  ghost predicate PassedBy(assets: seq<Asset>, id: Id, n: nat, v: Id)
  {
    exists m: nat :: m < n && Ancestor(assets, id, m) == Some(v)
  }

  lemma PassedByOneMore(assets: seq<Asset>, id: Id, n: nat, visited: set<Id>, v: Id)
    requires forall u | u in visited :: PassedBy(assets, id, n, u)
    requires Ancestor(assets, id, n) == Some(v)
    ensures forall u | u in visited + {v} :: PassedBy(assets, id, n + 1, u)
  {
    forall u | u in visited + {v} ensures PassedBy(assets, id, n + 1, u) {
      if u in visited {
        assert PassedBy(assets, id, n, u);
      }
    }
  }

  lemma RepeatReachesCycle(assets: seq<Asset>, id: Id, n: nat, v: Id)
    requires PassedBy(assets, id, n, v) && Ancestor(assets, id, n) == Some(v)
    ensures ReachesCycle(assets, id)
  {
  }

  /** Following the chain long enough either ends it or repeats an id, because ids are finitely many. */
  lemma {:induction false} EndOrRepeat(assets: seq<Asset>, id: Id, n: nat, visited: set<Id>)
    requires visited <= Ids(assets)
    requires forall v | v in visited :: PassedBy(assets, id, n, v)
    ensures ChainEnds(assets, id) || ReachesCycle(assets, id)
    decreases |Ids(assets) - visited|
  {
    var current := Ancestor(assets, id, n);
    if current.None? {
    } else if current.value in visited {
      RepeatReachesCycle(assets, id, n, current.value);
    } else if Lookup(assets, current.value).None? {
      assert Ancestor(assets, id, n + 1) == None;
    } else {
      assert current.value in Ids(assets);
      var more := visited + {current.value};
      assert Ids(assets) - visited == (Ids(assets) - more) + {current.value};
      PassedByOneMore(assets, id, n, visited, current.value);
      EndOrRepeat(assets, id, n + 1, more);
    }
  }

  lemma EndsIffNoCycle(assets: seq<Asset>, id: Id)
    ensures ChainEnds(assets, id) <==> !ReachesCycle(assets, id)
  {
    EndOrRepeat(assets, id, 0, {});
    if ReachesCycle(assets, id) {
      var i: nat, j: nat :|
        i < j && Ancestor(assets, id, i).Some? && Ancestor(assets, id, i) == Ancestor(assets, id, j);
      forall k: nat ensures Ancestor(assets, id, k).Some? {
        CyclesNeverEnd(assets, id, i, j, k);
      }
    }
  }

  lemma EndedMeansNoCycle(assets: seq<Asset>, id: Id, n: nat)
    requires Ancestor(assets, id, n) == None
    ensures !ReachesCycle(assets, id)
  {
    assert ChainEnds(assets, id);
    EndsIffNoCycle(assets, id);
  }

  lemma FewerUnvisited(assets: seq<Asset>, visited: set<Id>, v: Id)
    requires v in Ids(assets) && v !in visited
    ensures |Ids(assets) - (visited + {v})| < |Ids(assets) - visited|
  {
    assert Ids(assets) - visited == (Ids(assets) - (visited + {v})) + {v};
  }

  method HasCycle(assets: seq<Asset>, start: Id) returns (r: bool)
    ensures r <==> ReachesCycle(assets, start)
  {
    var visited: set<Id> := {};
    var current := Some(start);
    ghost var n := 0;
    while current.Some?
      invariant current == Ancestor(assets, start, n)
      invariant visited <= Ids(assets)
      invariant forall v | v in visited :: PassedBy(assets, start, n, v)
      decreases |Ids(assets) - visited|
    {
      var id := current.value;
      if id in visited {
        RepeatReachesCycle(assets, start, n, id);
        return true;
      }
      var asset := Lookup(assets, id);
      if asset.None? {
        EndedMeansNoCycle(assets, start, n + 1);
        return false;
      }
      PassedByOneMore(assets, start, n, visited, id);
      FewerUnvisited(assets, visited, id);
      visited := visited + {id};
      current := asset.value.parent;
      n := n + 1;
    }
    EndedMeansNoCycle(assets, start, n);
    return false;
  }

  // ----- the emitted forest ------------------------------------------------------------------

  /** The source's test: the parent's chain reaches a cycle. */
  ghost predicate ParentReachesCycle(assets: seq<Asset>, a: Asset)
  {
    a.parent.Some? && ReachesCycle(assets, a.parent.value)
  }

  ghost function Emit(assets: seq<Asset>, a: Asset): Node
  {
    Node(a.id,
         if ParentReachesCycle(assets, a) then None else a.parent,
         a.createdAt,
         a.parent.Some? && a.parent.value !in Ids(assets))
  }

  ghost function EmitAll(assets: seq<Asset>, emitted: seq<Asset>): seq<Node>
  {
    seq(|emitted|, i requires 0 <= i < |emitted| => Emit(assets, emitted[i]))
  }

  lemma EmitOneMore(assets: seq<Asset>, i: nat)
    requires i < |assets|
    ensures EmitAll(assets, assets[..i + 1]) == EmitAll(assets, assets[..i]) + [Emit(assets, assets[i])]
  {
  }

  ghost predicate CycleAmong(assets: seq<Asset>, emitted: seq<Asset>)
  {
    exists a | a in emitted :: ParentReachesCycle(assets, a)
  }

  lemma CycleAmongOneMore(assets: seq<Asset>, i: nat)
    requires i < |assets|
    ensures CycleAmong(assets, assets[..i + 1])
       <==> CycleAmong(assets, assets[..i]) || ParentReachesCycle(assets, assets[i])
  {
    assert assets[..i + 1] == assets[..i] + [assets[i]];
  }

  method BuildVersionTree(assets: seq<Asset>) returns (tree: Tree)
    ensures var emitted := if |assets| <= TREE_NODE_CAP then assets else assets[..TREE_NODE_CAP];
      && tree.nodes == StableSort.Sort(EmitAll(assets, emitted), (n: Node) => n.createdAt)
      && (tree.cycleDetected <==> CycleAmong(assets, emitted))
    ensures tree.capped <==> |assets| > TREE_NODE_CAP
  {
    var nodes: seq<Node> := [];
    var cycleDetected := false;
    var i := 0;
    while i < |assets|
      invariant 0 <= i <= |assets| && i <= TREE_NODE_CAP
      invariant nodes == EmitAll(assets, assets[..i])
      invariant cycleDetected <==> CycleAmong(assets, assets[..i])
    {
      if |nodes| >= TREE_NODE_CAP {
        break;
      }
      var asset := assets[i];
      var parent := asset.parent;
      var orphaned := parent.Some? && parent.value !in Ids(assets);
      if parent.Some? {
        var cycle := HasCycle(assets, parent.value);
        if cycle {
          cycleDetected := true;
          parent := None;
        }
      }
      EmitOneMore(assets, i);
      CycleAmongOneMore(assets, i);
      nodes := nodes + [Node(asset.id, parent, asset.createdAt, orphaned)];
      i := i + 1;
    }
    assert assets[..|assets|] == assets;
    tree := Tree(StableSort.Sort(nodes, (n: Node) => n.createdAt), cycleDetected, |assets| > TREE_NODE_CAP);
  }

  // ----- what the forest is ---------------------------------------------------------------------

  ghost predicate UniqueIds(assets: seq<Asset>)
  {
    forall a, b | a in assets && b in assets && a.id == b.id :: a == b
  }

  lemma OwnChain(assets: seq<Asset>, a: Asset)
    requires UniqueIds(assets) && a in assets
    ensures Parent(assets, a.id) == a.parent
    ensures ReachesCycle(assets, a.id) <==> a.parent.Some? && ReachesCycle(assets, a.parent.value)
  {
    assert Lookup(assets, a.id) == Some(a);
    assert Ancestor(assets, a.id, 0) == Some(a.id);
    assert Ancestor(assets, a.id, 1) == a.parent;
    EndsIffNoCycle(assets, a.id);
    if a.parent.Some? {
      EndsIffNoCycle(assets, a.parent.value);
      if ChainEnds(assets, a.parent.value) {
        var k: nat :| Ancestor(assets, a.parent.value, k) == None;
        AncestorsCompose(assets, a.id, 1, k);
        assert Ancestor(assets, a.id, 1 + k) == None;
      }
      if ChainEnds(assets, a.id) {
        var k: nat :| Ancestor(assets, a.id, k) == None;
        assert k > 0;
        AncestorsCompose(assets, a.id, 1, k - 1);
      }
    }
  }

  /** Whatever the ids, a node shows its asset; only a parent whose chain reaches a cycle is left out, and a node is
      orphaned exactly if it names a parent that no asset is. */
  lemma NodeShowsItsAsset(assets: seq<Asset>, a: Asset)
    ensures var n := Emit(assets, a);
      && n.id == a.id && n.createdAt == a.createdAt
      && (n.orphaned <==> a.parent.Some? && forall b | b in assets :: Some(b.id) != a.parent)
      && n.parent == (if a.parent.Some? && !ChainEnds(assets, a.parent.value) then None else a.parent)
      && (n.orphaned ==> n.parent == a.parent)
  {
    if a.parent.Some? {
      EndsIffNoCycle(assets, a.parent.value);
      if a.parent.value !in Ids(assets) {
        var id := a.parent.value;
        forall b | b in assets ensures b.id != id {
        }
        assert Ancestor(assets, id, 0) == Some(id);
        assert Ancestor(assets, id, 1) == None;
      }
    }
  }

  /** With unique ids a node keeps its parent exactly where its ancestor chain ends, and loses it where
      the chain reaches a cycle. */
  lemma ParentKeptExactlyOnEndingChains(assets: seq<Asset>, a: Asset)
    requires UniqueIds(assets) && a in assets
    ensures Emit(assets, a).parent == if ChainEnds(assets, a.id) then a.parent else None
    ensures !ChainEnds(assets, a.id) ==> a.parent.Some?
  {
    OwnChain(assets, a);
    EndsIffNoCycle(assets, a.id);
  }

  /** The number of steps to the end of a chain that ends. */
  ghost function Height(assets: seq<Asset>, id: Id): (h: nat)
    requires ChainEnds(assets, id)
    ensures Ancestor(assets, id, h) == None && forall k: nat | k < h :: Ancestor(assets, id, k).Some?
  {
    var k: nat :| Ancestor(assets, id, k) == None;
    LeastEnd(assets, id, k)
  }

  ghost function LeastEnd(assets: seq<Asset>, id: Id, k: nat): (h: nat)
    requires Ancestor(assets, id, k) == None
    ensures Ancestor(assets, id, h) == None && forall m: nat | m < h :: Ancestor(assets, id, m).Some?
  {
    if exists m: nat :: m < k && Ancestor(assets, id, m) == None then
      var m: nat :| m < k && Ancestor(assets, id, m) == None;
      LeastEnd(assets, id, m)
    else k
  }

  /** The emitted parent relation is well-founded: along it, from any node, the height falls. */
  lemma EmittedRelationIsWellFounded(assets: seq<Asset>, child: Asset, parent: Asset)
    requires UniqueIds(assets) && child in assets && parent in assets
    requires Emit(assets, child).parent == Some(parent.id)
    ensures ChainEnds(assets, child.id) && ChainEnds(assets, parent.id)
    ensures Height(assets, parent.id) < Height(assets, child.id)
  {
    OwnChain(assets, child);
    EndsIffNoCycle(assets, child.id);
    EndsIffNoCycle(assets, parent.id);
    assert Ancestor(assets, child.id, 0) == Some(child.id);
    assert Ancestor(assets, child.id, 1) == Some(parent.id);
    var h := Height(assets, child.id);
    assert h > 1;
    AncestorsCompose(assets, child.id, 1, h - 1);
  }

  /** The tree reports a cycle exactly when the chain of some emitted asset reaches one. */
  lemma CycleReportedIff(assets: seq<Asset>, emitted: seq<Asset>)
    requires UniqueIds(assets) && forall a | a in emitted :: a in assets
    ensures CycleAmong(assets, emitted) <==> exists a | a in emitted :: ReachesCycle(assets, a.id)
  {
    forall a | a in emitted
      ensures ReachesCycle(assets, a.id) <==> ParentReachesCycle(assets, a)
    {
      OwnChain(assets, a);
    }
  }
}
