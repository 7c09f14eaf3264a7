/**
 * The connection-wide registry `DispatcherConnection._dispatchers` next to the
 * dispatcher tree (src/rpc/server/dispatcher.ts:45, 61-66, 84-92, 115): the
 * invariant that ties the two together, what construction does to the node
 * table, and why construction and disposal keep the invariant.
 */
module Registry {
  import opened Wrappers
  import opened Payloads
  import opened Tree
  import opened Disposal

  /** The node is registered in the connection under its own guid. */
  ghost predicate Live(nodes: seq<DispatcherRec>, dispatchers: map<string, NodeId>, x: NodeId) {
    x < |nodes| && nodes[x].guid in dispatchers && dispatchers[nodes[x].guid] == x
  }

  /** Every registry entry names a node of the table that carries that guid. */
  ghost predicate RegistryConsistent(nodes: seq<DispatcherRec>, dispatchers: map<string, NodeId>) {
    forall g :: g in dispatchers ==> dispatchers[g] < |nodes| && nodes[dispatchers[g]].guid == g
  }

  /** The record `Root` builds (dispatcher.ts:108-111): guid "", type "", a scope without a parent. */
  ghost predicate IsRootRecord(r: DispatcherRec) {
    r.guid == "" && r.typeName == "" && r.isScope && r.parent == None && r.scope == 0
  }

  /**
   * Every dispatcher but the root was constructed under a parent dispatcher, and
   * its `_scope` is itself for a scope and its parent otherwise (dispatcher.ts:58-59).
   */
  ghost predicate ScopesFixed(nodes: seq<DispatcherRec>) {
    forall i :: 0 < i < |nodes| ==>
      nodes[i].parent.Some? && nodes[i].scope == if nodes[i].isScope then i else nodes[i].parent.value
  }

  /** A node in some children map is registered in the connection as well. */
  ghost predicate ChildrenLive(nodes: seq<DispatcherRec>, dispatchers: map<string, NodeId>) {
    forall i, k :: 0 <= i < |nodes| && 0 <= k < |nodes[i].children| ==>
      Live(nodes, dispatchers, nodes[i].children[k])
  }

  /** A registered node other than the root is in its parent's children map. */
  ghost predicate LiveLinked(nodes: seq<DispatcherRec>, dispatchers: map<string, NodeId>) {
    forall x :: 0 < x < |nodes| && nodes[x].parent.Some? && nodes[x].parent.value < |nodes| && Live(nodes, dispatchers, x) ==>
      x in nodes[nodes[x].parent.value].children
  }

  /**
   * `object[dispatcherSymbol]` points at a dispatcher constructed around that
   * object (dispatcher.ts:72).
   */
  ghost predicate SymbolsOwned(nodes: seq<DispatcherRec>, symbols: map<ObjectId, NodeId>) {
    forall o :: o in symbols ==> symbols[o] < |nodes| && nodes[symbols[o]].wrapped == o
  }

  /** The invariant every operation of a connection keeps. */
  ghost predicate ConnectionInvariant(nodes: seq<DispatcherRec>, dispatchers: map<string, NodeId>, symbols: map<ObjectId, NodeId>) {
    && |nodes| > 0
    && IsRootRecord(nodes[0])
    && WellFormed(nodes)
    && ScopesFixed(nodes)
    && RegistryConsistent(nodes, dispatchers)
    && ChildrenLive(nodes, dispatchers)
    && LiveLinked(nodes, dispatchers)
    && SymbolsOwned(nodes, symbols)
  }

  /** The guid a new dispatcher gets: the one passed, or `type + '@' + helper.guid()` (dispatcher.ts:53). */
  function GuidFor(typeName: string, guid: Option<string>, random: string): (g: string)
    ensures guid.Some? ==> g == guid.value
    ensures guid.None? ==> |g| == |typeName| + 1 + |random| && g[..|typeName|] == typeName && g[|typeName|] == '@' && g[|typeName| + 1..] == random
  {
    if guid.Some? then guid.value else typeName + "@" + random
  }

  /** The record of a dispatcher constructed as node `m` under `parent` (dispatcher.ts:56-59, 68-70). */
  function NewRecord(m: NodeId, parent: NodeId, obj: ObjectId, typeName: string, isScope: bool, guid: string): DispatcherRec {
    DispatcherRec(guid, typeName, obj, isScope, Some(parent), if isScope then m else parent, [], false)
  }

  /** The table once `rec` is constructed under `parent` and registered in its children map (dispatcher.ts:65). */
  function Constructed(nodes: seq<DispatcherRec>, parent: NodeId, rec: DispatcherRec): (r: seq<DispatcherRec>)
    requires parent < |nodes|
    ensures |r| == |nodes| + 1 && r[|nodes|] == rec
    ensures forall x :: 0 <= x < |nodes| ==> Skeleton(r[x]) == Skeleton(nodes[x])
    ensures forall x :: 0 <= x < |nodes| ==>
      r[x].children == if x == parent then nodes[x].children + [|nodes|] else nodes[x].children
  {
    nodes[parent := nodes[parent].(children := nodes[parent].children + [|nodes|])] + [rec]
  }

  /**
   * A registry maps each guid to one dispatcher, so two registered dispatchers
   * never share a guid. This follows from the registry being a map; what keeps
   * a second dispatcher from taking a registered guid is the assertion of
   * dispatcher.ts:61, the failure branch of `Construct`.
   */
  lemma LiveUnique(nodes: seq<DispatcherRec>, dispatchers: map<string, NodeId>, x: NodeId, y: NodeId)
    requires Live(nodes, dispatchers, x) && Live(nodes, dispatchers, y)
    ensures nodes[x].guid == nodes[y].guid <==> x == y
  {
  }

  /** The children of any dispatcher are registered, so no child carries a guid the connection does not know. */
  lemma ChildGuidsRegistered(nodes: seq<DispatcherRec>, dispatchers: map<string, NodeId>, symbols: map<ObjectId, NodeId>,
                             parent: NodeId, guid: string)
    requires ConnectionInvariant(nodes, dispatchers, symbols) && parent < |nodes| && guid !in dispatchers
    ensures forall k :: 0 <= k < |nodes[parent].children| ==> nodes[nodes[parent].children[k]].guid != guid
  {
    forall k | 0 <= k < |nodes[parent].children| ensures nodes[nodes[parent].children[k]].guid != guid {
      assert Live(nodes, dispatchers, nodes[parent].children[k]);
    }
  }

  /* ---------------- construction ---------------- */

  /** Construction leaves every old record as it was, except that the parent's children map gains the new node. */
  lemma ConstructedShape(nodes: seq<DispatcherRec>, parent: NodeId, rec: DispatcherRec)
    requires parent < |nodes|
    ensures var r := Constructed(nodes, parent, rec);
      && (forall x :: 0 <= x < |nodes| ==>
            && r[x].guid == nodes[x].guid && r[x].parent == nodes[x].parent && r[x].disposed == nodes[x].disposed
            && r[x].isScope == nodes[x].isScope && r[x].scope == nodes[x].scope && r[x].typeName == nodes[x].typeName)
      && (forall i, k :: 0 <= i < |nodes| && 0 <= k < |nodes[i].children| ==> r[i].children[k] == nodes[i].children[k])
      && (forall i :: 0 <= i < |nodes| && i != parent ==> |r[i].children| == |nodes[i].children|)
      && |r[parent].children| == |nodes[parent].children| + 1
      && r[parent].children[|nodes[parent].children|] == |nodes|
  {
    var r := Constructed(nodes, parent, rec);
    forall x | 0 <= x < |nodes|
      ensures && r[x].guid == nodes[x].guid && r[x].parent == nodes[x].parent && r[x].disposed == nodes[x].disposed
              && r[x].isScope == nodes[x].isScope && r[x].scope == nodes[x].scope && r[x].typeName == nodes[x].typeName
    {
      assert Skeleton(r[x]) == Skeleton(nodes[x]);
    }
  }

  lemma ConstructedOrdered(nodes: seq<DispatcherRec>, parent: NodeId, rec: DispatcherRec)
    requires WellFormed(nodes) && parent < |nodes| && rec.children == [] && rec.parent == Some(parent)
    ensures ChildrenOrdered(Constructed(nodes, parent, rec)) && ParentLinks(Constructed(nodes, parent, rec))
  {
    var m, r := |nodes|, Constructed(nodes, parent, rec);
    ConstructedShape(nodes, parent, rec);
    assert ChildrenOrdered(r) by {
      forall i, k | 0 <= i < |r| && 0 <= k < |r[i].children| ensures i < r[i].children[k] < |r| {
        if i < m && k < |nodes[i].children| {
          assert r[i].children[k] == nodes[i].children[k];
        }
      }
    }
    forall i, k | 0 <= i < |r| && 0 <= k < |r[i].children| ensures r[r[i].children[k]].parent == Some(i) {
      if i < m && k < |nodes[i].children| {
        assert r[i].children[k] == nodes[i].children[k];
      }
    }
  }

  lemma ConstructedWellFormed(nodes: seq<DispatcherRec>, dispatchers: map<string, NodeId>,
                              parent: NodeId, obj: ObjectId, typeName: string, isScope: bool, guid: string)
    requires WellFormed(nodes) && ChildrenLive(nodes, dispatchers) && parent < |nodes| && guid !in dispatchers
    ensures WellFormed(Constructed(nodes, parent, NewRecord(|nodes|, parent, obj, typeName, isScope, guid)))
  {
    var m, rec := |nodes|, NewRecord(|nodes|, parent, obj, typeName, isScope, guid);
    var r := Constructed(nodes, parent, rec);
    ConstructedShape(nodes, parent, rec);
    ConstructedOrdered(nodes, parent, rec);
    forall i, k, l | 0 <= i < |r| && 0 <= k < l < |r[i].children|
      ensures r[r[i].children[k]].guid != r[r[i].children[l]].guid
    {
      ConstructedGuidsDistinct(nodes, dispatchers, parent, rec, i, k, l);
    }
  }

  lemma ConstructedGuidsDistinct(nodes: seq<DispatcherRec>, dispatchers: map<string, NodeId>,
                                 parent: NodeId, rec: DispatcherRec, i: nat, k: nat, l: nat)
    requires WellFormed(nodes) && ChildrenLive(nodes, dispatchers) && parent < |nodes| && rec.guid !in dispatchers
    requires rec.children == [] && rec.parent == Some(parent)
    requires ChildrenOrdered(Constructed(nodes, parent, rec))
    requires i <= |nodes| && k < l < |Constructed(nodes, parent, rec)[i].children|
    ensures var r := Constructed(nodes, parent, rec);
      r[r[i].children[k]].guid != r[r[i].children[l]].guid
  {
    var r := Constructed(nodes, parent, rec);
    ConstructedShape(nodes, parent, rec);
    assert i < |nodes|;
    assert r[i].children[k] == nodes[i].children[k];
    if i == parent && l == |nodes[i].children| {
      assert Live(nodes, dispatchers, nodes[i].children[k]);
    } else {
      assert r[i].children[l] == nodes[i].children[l];
    }
  }

  lemma ConstructedLive(nodes: seq<DispatcherRec>, dispatchers: map<string, NodeId>,
                        parent: NodeId, obj: ObjectId, typeName: string, isScope: bool, guid: string)
    requires RegistryConsistent(nodes, dispatchers) && parent < |nodes| && guid !in dispatchers
    ensures var r := Constructed(nodes, parent, NewRecord(|nodes|, parent, obj, typeName, isScope, guid));
      && Live(r, dispatchers[guid := |nodes|], |nodes|)
      && (forall x :: 0 <= x < |nodes| ==> (Live(r, dispatchers[guid := |nodes|], x) <==> Live(nodes, dispatchers, x)))
      && RegistryConsistent(r, dispatchers[guid := |nodes|])
  {
    var m, rec := |nodes|, NewRecord(|nodes|, parent, obj, typeName, isScope, guid);
    var r, d := Constructed(nodes, parent, rec), dispatchers[guid := m];
    ConstructedShape(nodes, parent, rec);
    forall x | 0 <= x < m ensures Live(r, d, x) <==> Live(nodes, dispatchers, x) {
      if nodes[x].guid == guid {
        assert !Live(nodes, dispatchers, x);
      }
    }
  }

  lemma ConstructedChildrenLive(nodes: seq<DispatcherRec>, dispatchers: map<string, NodeId>,
                                parent: NodeId, obj: ObjectId, typeName: string, isScope: bool, guid: string)
    requires RegistryConsistent(nodes, dispatchers) && ChildrenLive(nodes, dispatchers) && parent < |nodes| && guid !in dispatchers
    ensures ChildrenLive(Constructed(nodes, parent, NewRecord(|nodes|, parent, obj, typeName, isScope, guid)), dispatchers[guid := |nodes|])
  {
    var m, rec := |nodes|, NewRecord(|nodes|, parent, obj, typeName, isScope, guid);
    var r, d := Constructed(nodes, parent, rec), dispatchers[guid := m];
    ConstructedShape(nodes, parent, rec);
    ConstructedLive(nodes, dispatchers, parent, obj, typeName, isScope, guid);
    forall i, k | 0 <= i < |r| && 0 <= k < |r[i].children| ensures Live(r, d, r[i].children[k]) {
      assert i < m;
      if k < |nodes[i].children| {
        assert r[i].children[k] == nodes[i].children[k];
        assert Live(nodes, dispatchers, nodes[i].children[k]);
      }
    }
  }

  lemma ConstructedLiveLinked(nodes: seq<DispatcherRec>, dispatchers: map<string, NodeId>,
                              parent: NodeId, obj: ObjectId, typeName: string, isScope: bool, guid: string)
    requires RegistryConsistent(nodes, dispatchers) && LiveLinked(nodes, dispatchers) && ParentsBelow(nodes)
    requires parent < |nodes| && guid !in dispatchers
    ensures LiveLinked(Constructed(nodes, parent, NewRecord(|nodes|, parent, obj, typeName, isScope, guid)), dispatchers[guid := |nodes|])
  {
    var m, rec := |nodes|, NewRecord(|nodes|, parent, obj, typeName, isScope, guid);
    var r, d := Constructed(nodes, parent, rec), dispatchers[guid := m];
    ConstructedShape(nodes, parent, rec);
    ConstructedLive(nodes, dispatchers, parent, obj, typeName, isScope, guid);
    forall x | 0 < x < |r| && r[x].parent.Some? && r[x].parent.value < |r| && Live(r, d, x)
      ensures x in r[r[x].parent.value].children
    {
      if x < m {
        var p := nodes[x].parent.value;
        assert Live(nodes, dispatchers, x);
        assert x in nodes[p].children;
        var k :| 0 <= k < |nodes[p].children| && nodes[p].children[k] == x;
        assert r[p].children[k] == x;
      } else {
        assert r[parent].children[|nodes[parent].children|] == m;
      }
    }
  }

  /**
   * Constructing a dispatcher under a guid the connection does not know keeps
   * the invariant; the new node is registered and every old node is live
   * exactly when it was (dispatcher.ts:61-72).
   */
  lemma ConstructPreservesInvariant(nodes: seq<DispatcherRec>, dispatchers: map<string, NodeId>, symbols: map<ObjectId, NodeId>,
                                    parent: NodeId, obj: ObjectId, typeName: string, isScope: bool, guid: string)
    requires ConnectionInvariant(nodes, dispatchers, symbols) && parent < |nodes| && guid !in dispatchers
    ensures var r := Constructed(nodes, parent, NewRecord(|nodes|, parent, obj, typeName, isScope, guid));
      && ConnectionInvariant(r, dispatchers[guid := |nodes|], symbols[obj := |nodes|])
      && Live(r, dispatchers[guid := |nodes|], |nodes|)
      && (forall x :: 0 <= x < |nodes| ==> (Live(r, dispatchers[guid := |nodes|], x) <==> Live(nodes, dispatchers, x)))
  {
    var rec := NewRecord(|nodes|, parent, obj, typeName, isScope, guid);
    var r := Constructed(nodes, parent, rec);
    ConstructedShape(nodes, parent, rec);
    ConstructedWellFormed(nodes, dispatchers, parent, obj, typeName, isScope, guid);
    ConstructedLive(nodes, dispatchers, parent, obj, typeName, isScope, guid);
    ConstructedChildrenLive(nodes, dispatchers, parent, obj, typeName, isScope, guid);
    ConstructedLiveLinked(nodes, dispatchers, parent, obj, typeName, isScope, guid);
    assert IsRootRecord(r[0]);
    assert ScopesFixed(r);
    ConstructedSymbols(nodes, symbols, parent, rec);
  }

  lemma ConstructedSymbols(nodes: seq<DispatcherRec>, symbols: map<ObjectId, NodeId>, parent: NodeId, rec: DispatcherRec)
    requires SymbolsOwned(nodes, symbols) && parent < |nodes|
    ensures SymbolsOwned(Constructed(nodes, parent, rec), symbols[rec.wrapped := |nodes|])
  {
    var r := Constructed(nodes, parent, rec);
    forall x | 0 <= x < |nodes| ensures r[x].wrapped == nodes[x].wrapped {
      assert Skeleton(r[x]) == Skeleton(nodes[x]);
    }
  }

  /* ---------------- disposal ---------------- */

  /** A live dispatcher's whole subtree is live: every node below it sits in some children map. */
  lemma SubtreeLive(nodes: seq<DispatcherRec>, dispatchers: map<string, NodeId>, symbols: map<ObjectId, NodeId>, n: NodeId, z: NodeId)
    requires ConnectionInvariant(nodes, dispatchers, symbols) && Live(nodes, dispatchers, n)
    requires z in PostOrder(nodes, n)
    ensures Live(nodes, dispatchers, z)
  {
    if z != n {
      var q := SubtreeParent(nodes, n, z);
      var k :| 0 <= k < |nodes[q].children| && nodes[q].children[k] == z;
    }
  }

  /** Among live nodes, a guid of the subtree of a live `n` belongs to the subtree. */
  lemma SubtreeGuidOwner(nodes: seq<DispatcherRec>, dispatchers: map<string, NodeId>, symbols: map<ObjectId, NodeId>, n: NodeId, y: NodeId)
    requires ConnectionInvariant(nodes, dispatchers, symbols) && Live(nodes, dispatchers, n) && Live(nodes, dispatchers, y)
    ensures nodes[y].guid in SubtreeGuids(nodes, n) <==> y in PostOrder(nodes, n)
  {
    if nodes[y].guid in SubtreeGuids(nodes, n) {
      var z :| z in PostOrder(nodes, n) && z < |nodes| && nodes[z].guid == nodes[y].guid;
      SubtreeLive(nodes, dispatchers, symbols, n, z);
    }
  }

  /** What is left in a children map after disposing a live `n` lies outside its subtree. */
  lemma DisposedChild(nodes: seq<DispatcherRec>, dispatchers: map<string, NodeId>, symbols: map<ObjectId, NodeId>,
                      n: NodeId, i: NodeId, y: NodeId)
    requires ConnectionInvariant(nodes, dispatchers, symbols) && Live(nodes, dispatchers, n) && i < |nodes|
    requires y in DisposedNodes(nodes, n)[i].children
    ensures y in nodes[i].children && y !in PostOrder(nodes, n)
  {
    var r := DisposedNodes(nodes, n);
    var cs := nodes[i].children;
    assert i !in PostOrder(nodes, n);
    if nodes[n].parent == Some(i) {
      assert r[i].children == DeleteGuid(nodes, cs, nodes[n].guid);
      DeleteGuidDrops(nodes, cs, nodes[n].guid, y);
    } else {
      assert r[i] == nodes[i];
    }
    var k :| 0 <= k < |cs| && cs[k] == y;
    assert nodes[y].parent == Some(i);
    if y in PostOrder(nodes, n) {
      assert y != n;
      var q := SubtreeParent(nodes, n, y);
    }
  }

  lemma DisposedChildrenLive(nodes: seq<DispatcherRec>, dispatchers: map<string, NodeId>, symbols: map<ObjectId, NodeId>, n: NodeId)
    requires ConnectionInvariant(nodes, dispatchers, symbols) && Live(nodes, dispatchers, n)
    ensures ChildrenLive(DisposedNodes(nodes, n), dispatchers - SubtreeGuids(nodes, n))
  {
    var r, d := DisposedNodes(nodes, n), dispatchers - SubtreeGuids(nodes, n);
    DisposedWellFormed(nodes, n);
    forall i, k | 0 <= i < |r| && 0 <= k < |r[i].children| ensures Live(r, d, r[i].children[k]) {
      var y := r[i].children[k];
      DisposedChild(nodes, dispatchers, symbols, n, i, y);
      var k' :| 0 <= k' < |nodes[i].children| && nodes[i].children[k'] == y;
      SubtreeGuidOwner(nodes, dispatchers, symbols, n, y);
      assert Skeleton(r[y]).guid == Skeleton(nodes[y]).guid;
    }
  }

  lemma DisposedLiveLinked(nodes: seq<DispatcherRec>, dispatchers: map<string, NodeId>, symbols: map<ObjectId, NodeId>, n: NodeId)
    requires ConnectionInvariant(nodes, dispatchers, symbols) && Live(nodes, dispatchers, n)
    ensures LiveLinked(DisposedNodes(nodes, n), dispatchers - SubtreeGuids(nodes, n))
  {
    var r, d := DisposedNodes(nodes, n), dispatchers - SubtreeGuids(nodes, n);
    DisposedWellFormed(nodes, n);
    forall x | 0 < x < |r| && r[x].parent.Some? && r[x].parent.value < |r| && Live(r, d, x)
      ensures x in r[r[x].parent.value].children
    {
      assert Skeleton(r[x]) == Skeleton(nodes[x]);
      assert Live(nodes, dispatchers, x);
      var p := nodes[x].parent.value;
      assert x in nodes[p].children;
      assert x !in PostOrder(nodes, n);
      assert p !in PostOrder(nodes, n) by {
        if p in PostOrder(nodes, n) {
          SubtreeClosed(nodes, n, p, x);
        }
      }
      if nodes[n].parent == Some(p) {
        assert r[p].children == DeleteGuid(nodes, nodes[p].children, nodes[n].guid);
        assert nodes[n].guid in SubtreeGuids(nodes, n);
        DeleteGuidKeeps(nodes, nodes[p].children, nodes[n].guid, x);
      } else {
        assert r[p] == nodes[p];
      }
    }
  }

  /**
   * Disposing a live dispatcher keeps the invariant, and afterwards exactly the
   * nodes that were live outside its subtree are live (dispatcher.ts:84-92).
   */
  lemma DisposePreservesInvariant(nodes: seq<DispatcherRec>, dispatchers: map<string, NodeId>, symbols: map<ObjectId, NodeId>, n: NodeId)
    requires ConnectionInvariant(nodes, dispatchers, symbols) && Live(nodes, dispatchers, n)
    ensures ConnectionInvariant(DisposedNodes(nodes, n), dispatchers - SubtreeGuids(nodes, n), symbols)
    ensures forall x :: 0 <= x < |nodes| ==>
      (Live(DisposedNodes(nodes, n), dispatchers - SubtreeGuids(nodes, n), x) <==>
       Live(nodes, dispatchers, x) && x !in PostOrder(nodes, n))
  {
    var r, d := DisposedNodes(nodes, n), dispatchers - SubtreeGuids(nodes, n);
    DisposedWellFormed(nodes, n);
    forall x | 0 <= x < |nodes| ensures r[x].guid == nodes[x].guid && r[x].parent == nodes[x].parent
      && r[x].isScope == nodes[x].isScope && r[x].scope == nodes[x].scope && r[x].typeName == nodes[x].typeName
      && r[x].wrapped == nodes[x].wrapped
    {
      assert Skeleton(r[x]) == Skeleton(nodes[x]);
    }
    DisposedChildrenLive(nodes, dispatchers, symbols, n);
    DisposedLiveLinked(nodes, dispatchers, symbols, n);
    DisposedLiveness(nodes, dispatchers, symbols, n);
    assert IsRootRecord(r[0]);
  }

  lemma DisposedLiveness(nodes: seq<DispatcherRec>, dispatchers: map<string, NodeId>, symbols: map<ObjectId, NodeId>, n: NodeId)
    requires ConnectionInvariant(nodes, dispatchers, symbols) && Live(nodes, dispatchers, n)
    ensures forall x :: 0 <= x < |nodes| ==>
      (Live(DisposedNodes(nodes, n), dispatchers - SubtreeGuids(nodes, n), x) <==>
       Live(nodes, dispatchers, x) && x !in PostOrder(nodes, n))
  {
    var r, d := DisposedNodes(nodes, n), dispatchers - SubtreeGuids(nodes, n);
    forall x | 0 <= x < |nodes| ensures Live(r, d, x) <==> Live(nodes, dispatchers, x) && x !in PostOrder(nodes, n) {
      if Live(nodes, dispatchers, x) {
        SubtreeGuidOwner(nodes, dispatchers, symbols, n, x);
      }
      DisposedLivenessAt(nodes, dispatchers, n, x);
    }
  }

  lemma DisposedLivenessAt(nodes: seq<DispatcherRec>, dispatchers: map<string, NodeId>, n: NodeId, x: NodeId)
    requires ChildrenOrdered(nodes) && n < |nodes| && x < |nodes|
    requires Live(nodes, dispatchers, x) ==> (nodes[x].guid in SubtreeGuids(nodes, n) <==> x in PostOrder(nodes, n))
    ensures Live(DisposedNodes(nodes, n), dispatchers - SubtreeGuids(nodes, n), x) <==>
            Live(nodes, dispatchers, x) && x !in PostOrder(nodes, n)
  {
    var r := DisposedNodes(nodes, n);
    assert Skeleton(r[x]).guid == Skeleton(nodes[x]).guid;
  }
}
