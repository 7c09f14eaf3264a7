/**
 * What `_dispose` (src/rpc/server/dispatcher.ts:81-96) does to the node table,
 * the registry and the outbound stream, as functions of the state it starts from.
 */
module Disposal {
  import opened Wrappers
  import opened Payloads
  import opened Tree
  import opened Messages

  /** Index of the entry keyed `g` in a children map (its length when there is none). */
  function IndexOfGuid(nodes: seq<DispatcherRec>, cs: seq<NodeId>, g: string): (j: nat)
    requires forall k :: 0 <= k < |cs| ==> cs[k] < |nodes|
    ensures j <= |cs|
    ensures j < |cs| ==> nodes[cs[j]].guid == g
    ensures forall k :: 0 <= k < j ==> nodes[cs[k]].guid != g
  {
    if cs == [] then 0
    else if nodes[cs[0]].guid == g then 0
    else 1 + IndexOfGuid(nodes, cs[1..], g)
  }

  /** `Map.prototype.delete(g)` on a children map: the entry keyed `g` goes, the others keep their order. */
  function DeleteGuid(nodes: seq<DispatcherRec>, cs: seq<NodeId>, g: string): (r: seq<NodeId>)
    requires forall k :: 0 <= k < |cs| ==> cs[k] < |nodes|
    ensures var j := IndexOfGuid(nodes, cs, g);
      && |r| == (if j < |cs| then |cs| - 1 else |cs|)
      && forall k :: 0 <= k < |r| ==> r[k] == cs[if k < j then k else k + 1]
  {
    var j := IndexOfGuid(nodes, cs, g);
    if j < |cs| then cs[..j] + cs[j + 1..] else cs
  }

  /** The subtree's nodes that are scopes announce their disposal, in visiting order. */
  ghost function Announcements(nodes: seq<DispatcherRec>, xs: seq<NodeId>): seq<Outbound>
    requires forall x :: x in xs ==> x < |nodes|
  {
    if xs == [] then []
    else
      var x, init := xs[|xs| - 1], xs[..|xs| - 1];
      assert x in xs && forall y :: y in init ==> y in xs;
      Announcements(nodes, init) + (if nodes[x].isScope then [DisposeMessage(nodes[x].guid)] else [])
  }

  /** The messages `_dispose` of `n` appends to the outbound stream. */
  ghost function DisposeAnnouncements(nodes: seq<DispatcherRec>, n: NodeId): seq<Outbound>
    requires ChildrenOrdered(nodes) && n < |nodes|
  {
    Announcements(nodes, PostOrder(nodes, n))
  }

  /** The guids `_dispose` of `n` deletes from the connection's registry. */
  ghost function SubtreeGuids(nodes: seq<DispatcherRec>, n: NodeId): set<string>
    requires ChildrenOrdered(nodes) && n < |nodes|
  {
    GuidsOf(nodes, PostOrder(nodes, n))
  }

  /**
   * The node table after `_dispose` of `n`: every node of the subtree has an
   * empty children map, the parent has lost the entry keyed by `n`'s guid, and
   * no other record changes. `_disposed` is left as it was.
   */
  ghost function DisposedNodes(nodes: seq<DispatcherRec>, n: NodeId): (r: seq<DispatcherRec>)
    requires ChildrenOrdered(nodes) && n < |nodes|
    ensures |r| == |nodes|
  {
    seq(|nodes|, i requires 0 <= i < |nodes| =>
      if i in PostOrder(nodes, n) then nodes[i].(children := [])
      else if nodes[n].parent == Some(i) then nodes[i].(children := DeleteGuid(nodes, nodes[i].children, nodes[n].guid))
      else nodes[i])
  }

  lemma DeleteGuidKeeps(nodes: seq<DispatcherRec>, cs: seq<NodeId>, g: string, x: NodeId)
    requires forall k :: 0 <= k < |cs| ==> cs[k] < |nodes|
    requires x in cs && nodes[x].guid != g
    ensures x in DeleteGuid(nodes, cs, g)
  {
    var j := IndexOfGuid(nodes, cs, g);
    var k :| 0 <= k < |cs| && cs[k] == x;
    var r := DeleteGuid(nodes, cs, g);
    if k < j {
      assert r[k] == x;
    } else {
      assert k != j;
      assert r[k - 1] == x;
    }
  }

  lemma DeleteGuidDrops(nodes: seq<DispatcherRec>, cs: seq<NodeId>, g: string, y: NodeId)
    requires forall k :: 0 <= k < |cs| ==> cs[k] < |nodes|
    requires forall k, l :: 0 <= k < l < |cs| ==> nodes[cs[k]].guid != nodes[cs[l]].guid
    requires y in DeleteGuid(nodes, cs, g)
    ensures y in cs && nodes[y].guid != g
  {
    var j := IndexOfGuid(nodes, cs, g);
    var r := DeleteGuid(nodes, cs, g);
    var k :| 0 <= k < |r| && r[k] == y;
    var k' := if k < j then k else k + 1;
    assert cs[k'] == y;
    if j < |cs| {
      assert nodes[cs[j]].guid == g && k' != j;
    }
  }

  /** With distinct child guids, deleting `g` drops exactly the child keyed `g`. */
  lemma DeleteGuidMembers(nodes: seq<DispatcherRec>, cs: seq<NodeId>, g: string)
    requires forall k :: 0 <= k < |cs| ==> cs[k] < |nodes|
    ensures (forall k, l :: 0 <= k < l < |cs| ==> nodes[cs[k]].guid != nodes[cs[l]].guid) ==>
      forall y :: y in DeleteGuid(nodes, cs, g) <==> y in cs && nodes[y].guid != g
  {
    if forall k, l :: 0 <= k < l < |cs| ==> nodes[cs[k]].guid != nodes[cs[l]].guid {
      forall y | y in cs && nodes[y].guid != g ensures y in DeleteGuid(nodes, cs, g) {
        DeleteGuidKeeps(nodes, cs, g, y);
      }
      forall y | y in DeleteGuid(nodes, cs, g) ensures y in cs && nodes[y].guid != g {
        DeleteGuidDrops(nodes, cs, g, y);
      }
    }
  }

  /** A record without its children map: the fields `_dispose` never changes. */
  function Skeleton(r: DispatcherRec): DispatcherRec {
    r.(children := [])
  }

  lemma {:induction false} AnnouncementsConcat(nodes: seq<DispatcherRec>, xs: seq<NodeId>, ys: seq<NodeId>)
    requires forall x :: x in xs ==> x < |nodes|
    requires forall y :: y in ys ==> y < |nodes|
    ensures Announcements(nodes, xs + ys) == Announcements(nodes, xs) + Announcements(nodes, ys)
    decreases |ys|
  {
    if ys != [] {
      var init := ys[..|ys| - 1];
      assert (xs + ys)[..|xs + ys| - 1] == xs + init;
      assert forall y :: y in init ==> y in ys;
      AnnouncementsConcat(nodes, xs, init);
    } else {
      assert xs + ys == xs;
    }
  }

  /** Announcements read only the guid and the scope flag of each node. */
  lemma {:induction false} AnnouncementsAgree(nodes: seq<DispatcherRec>, nodes': seq<DispatcherRec>, xs: seq<NodeId>)
    requires forall x :: x in xs ==> x < |nodes| && x < |nodes'|
    requires forall x :: x in xs ==> Skeleton(nodes'[x]) == Skeleton(nodes[x])
    ensures Announcements(nodes', xs) == Announcements(nodes, xs)
    decreases |xs|
  {
    if xs != [] {
      var x, init := xs[|xs| - 1], xs[..|xs| - 1];
      assert x in xs && forall y :: y in init ==> y in xs;
      assert nodes'[x].guid == Skeleton(nodes'[x]).guid;
      assert nodes'[x].isScope == Skeleton(nodes'[x]).isScope;
      AnnouncementsAgree(nodes, nodes', init);
    }
  }

  lemma DeleteFirstGuid(nodes: seq<DispatcherRec>, cs: seq<NodeId>)
    requires |cs| > 0 && forall k :: 0 <= k < |cs| ==> cs[k] < |nodes|
    ensures DeleteGuid(nodes, cs, nodes[cs[0]].guid) == cs[1..]
  {
  }

  /**
   * The record of `x` partway through the loop of `_dispose` of `n`, once the
   * first `i` children of the snapshot are disposed.
   */
  ghost function MidRecord(nodes: seq<DispatcherRec>, n: NodeId, i: nat, x: NodeId): DispatcherRec
    requires ChildrenOrdered(nodes) && n < |nodes| && i <= |nodes[n].children| && x < |nodes|
  {
    var cs := nodes[n].children;
    if x == n then nodes[n].(children := cs[i..])
    else if x in ChildrenPostOrder(nodes, n, cs[..i]) then nodes[x].(children := [])
    else if nodes[n].parent == Some(x) then nodes[x].(children := DeleteGuid(nodes, nodes[x].children, nodes[n].guid))
    else nodes[x]
  }

  ghost predicate MidDispose(nodes: seq<DispatcherRec>, n: NodeId, i: nat, cur: seq<DispatcherRec>)
    requires ChildrenOrdered(nodes) && n < |nodes| && i <= |nodes[n].children|
  {
    |cur| == |nodes| && forall x :: 0 <= x < |nodes| ==> cur[x] == MidRecord(nodes, n, i, x)
  }

  /**
   * The table once `n` is deleted from its parent's children map
   * (dispatcher.ts:85-86): only the parent's children map changes, and it
   * loses exactly the child keyed by `n`'s guid.
   */
  function Unlink(nodes: seq<DispatcherRec>, n: NodeId): (r: seq<DispatcherRec>)
    requires ChildrenOrdered(nodes) && n < |nodes|
    ensures |r| == |nodes|
    ensures forall x :: 0 <= x < |nodes| && nodes[n].parent != Some(x) ==> r[x] == nodes[x]
    ensures nodes[n].parent.Some? && nodes[n].parent.value < |nodes| ==>
      var p := nodes[n].parent.value;
      && Skeleton(r[p]) == Skeleton(nodes[p])
      && (ChildGuidsDistinct(nodes) ==>
            forall y :: y in r[p].children <==> y in nodes[p].children && nodes[y].guid != nodes[n].guid)
  {
    if nodes[n].parent.Some? && nodes[n].parent.value < |nodes| then
      var p := nodes[n].parent.value;
      var cs := nodes[p].children;
      assert ChildGuidsDistinct(nodes) ==> forall k, l :: 0 <= k < l < |cs| ==> nodes[cs[k]].guid != nodes[cs[l]].guid;
      DeleteGuidMembers(nodes, cs, nodes[n].guid);
      nodes[p := nodes[p].(children := DeleteGuid(nodes, cs, nodes[n].guid))]
    else nodes
  }

  lemma MidDisposeStart(nodes: seq<DispatcherRec>, n: NodeId)
    requires WellFormed(nodes) && n < |nodes|
    ensures MidDispose(nodes, n, 0, Unlink(nodes, n))
    ensures WellFormed(Unlink(nodes, n))
  {
    assert nodes[n].children[0..] == nodes[n].children;
    var r := Unlink(nodes, n);
    forall i | 0 <= i < |nodes| ensures Shortened(r[i].children, nodes[i].children) {
      if nodes[n].parent == Some(i) {
        var cs := nodes[i].children;
        var j := IndexOfGuid(nodes, cs, nodes[n].guid);
        if j < |cs| {
          assert r[i].children == cs[..j] + cs[j + 1..];
        }
      }
    }
    ShortenedWellFormed(nodes, r);
  }

  lemma MidDisposeSkeleton(nodes: seq<DispatcherRec>, n: NodeId, i: nat, cur: seq<DispatcherRec>)
    requires ChildrenOrdered(nodes) && n < |nodes| && i <= |nodes[n].children|
    requires MidDispose(nodes, n, i, cur)
    ensures forall x :: 0 <= x < |nodes| ==> Skeleton(cur[x]) == Skeleton(nodes[x])
  {
    forall x | 0 <= x < |nodes| ensures Skeleton(cur[x]) == Skeleton(nodes[x]) {
      assert cur[x] == MidRecord(nodes, n, i, x);
    }
  }

  /** The subtree of the next child meets neither `n`, nor its parent, nor the subtrees already disposed. */
  lemma StepDisjoint(nodes: seq<DispatcherRec>, n: NodeId, i: nat, x: NodeId)
    requires WellFormed(nodes) && n < |nodes| && i < |nodes[n].children|
    requires x in PostOrder(nodes, nodes[n].children[i])
    ensures x != n && nodes[n].parent != Some(x)
    ensures x !in ChildrenPostOrder(nodes, n, nodes[n].children[..i])
  {
    var cs := nodes[n].children;
    assert nodes[n].parent.Some? ==> nodes[n].parent.value < n;
    ChildrenPostOrderMember(nodes, n, cs[..i], x);
    if x in ChildrenPostOrder(nodes, n, cs[..i]) {
      var j :| 0 <= j < i && x in PostOrder(nodes, cs[..i][j]);
      assert cs[..i][j] == cs[j];
      SiblingsDisjoint(nodes, n, j, i, x);
    }
  }

  lemma StepFrame(nodes: seq<DispatcherRec>, n: NodeId, i: nat, cur: seq<DispatcherRec>)
    requires WellFormed(nodes) && ChildrenOrdered(cur) && n < |nodes| && i < |nodes[n].children|
    requires MidDispose(nodes, n, i, cur)
    ensures PostOrder(cur, nodes[n].children[i]) == PostOrder(nodes, nodes[n].children[i])
  {
    var c := nodes[n].children[i];
    forall x | x in PostOrder(nodes, c) ensures cur[x].children == nodes[x].children {
      StepDisjoint(nodes, n, i, x);
      assert cur[x] == MidRecord(nodes, n, i, x);
    }
    PostOrderFrame(nodes, cur, c);
  }

  lemma StepExtends(nodes: seq<DispatcherRec>, n: NodeId, i: nat)
    requires ChildrenOrdered(nodes) && n < |nodes| && i < |nodes[n].children|
    ensures ChildrenPostOrder(nodes, n, nodes[n].children[..i + 1])
         == ChildrenPostOrder(nodes, n, nodes[n].children[..i]) + PostOrder(nodes, nodes[n].children[i])
  {
    var cs := nodes[n].children;
    assert cs[..i + 1][..i] == cs[..i];
  }

  /** Disposing the next child of the snapshot takes the loop one step further. */
  lemma MidDisposeStep(nodes: seq<DispatcherRec>, n: NodeId, i: nat, cur: seq<DispatcherRec>)
    requires WellFormed(nodes) && ChildrenOrdered(cur) && n < |nodes| && i < |nodes[n].children|
    requires MidDispose(nodes, n, i, cur)
    ensures MidDispose(nodes, n, i + 1, DisposedNodes(cur, nodes[n].children[i]))
  {
    var cs := nodes[n].children;
    var c := cs[i];
    StepFrame(nodes, n, i, cur);
    StepExtends(nodes, n, i);
    var next := DisposedNodes(cur, c);
    assert cur[c] == MidRecord(nodes, n, i, c) by { StepDisjoint(nodes, n, i, c); }
    assert cur[c].parent == Some(n);
    assert cur[n].children == cs[i..];
    DeleteFirstGuid(cur, cs[i..]);
    assert cs[i..][1..] == cs[i + 1..];
    forall x | 0 <= x < |nodes| ensures next[x] == MidRecord(nodes, n, i + 1, x) {
      assert cur[x] == MidRecord(nodes, n, i, x);
      if x in PostOrder(nodes, c) {
        StepDisjoint(nodes, n, i, x);
      }
    }
  }

  lemma MidDisposeEnd(nodes: seq<DispatcherRec>, n: NodeId, cur: seq<DispatcherRec>)
    requires WellFormed(nodes) && n < |nodes|
    requires MidDispose(nodes, n, |nodes[n].children|, cur)
    ensures cur[n := cur[n].(children := [])] == DisposedNodes(nodes, n)
  {
    var cs := nodes[n].children;
    assert cs[..|cs|] == cs;
    var fin := cur[n := cur[n].(children := [])];
    var want := DisposedNodes(nodes, n);
    forall x | 0 <= x < |nodes| ensures fin[x] == want[x] {
      assert cur[x] == MidRecord(nodes, n, |cs|, x);
      assert nodes[n].parent.Some? ==> nodes[n].parent.value < n;
    }
  }

  /** `a` is `b` after clearing, after deleting one entry, or unchanged. */
  ghost predicate Shortened(a: seq<NodeId>, b: seq<NodeId>) {
    a == [] || a == b || exists j :: 0 <= j < |b| && a == b[..j] + b[j + 1..]
  }

  lemma ShortenedIndex(a: seq<NodeId>, b: seq<NodeId>, k: nat, l: nat) returns (k': nat, l': nat)
    requires Shortened(a, b) && k < l < |a|
    ensures k' < l' < |b| && a[k] == b[k'] && a[l] == b[l']
  {
    if a == b {
      k', l' := k, l;
    } else {
      var j :| 0 <= j < |b| && a == b[..j] + b[j + 1..];
      k', l' := if k < j then k else k + 1, if l < j then l else l + 1;
    }
  }

  lemma ShortenedIndex1(a: seq<NodeId>, b: seq<NodeId>, k: nat) returns (k': nat)
    requires Shortened(a, b) && k < |a|
    ensures k' < |b| && a[k] == b[k']
  {
    if a == b {
      k' := k;
    } else {
      var j :| 0 <= j < |b| && a == b[..j] + b[j + 1..];
      k' := if k < j then k else k + 1;
    }
  }

  /** A table whose records differ only by shortened children maps. */
  ghost predicate ShortenedTable(nodes: seq<DispatcherRec>, r: seq<DispatcherRec>) {
    && |r| == |nodes|
    && (forall i :: 0 <= i < |r| ==> Skeleton(r[i]) == Skeleton(nodes[i]))
    && (forall i :: 0 <= i < |r| ==> Shortened(r[i].children, nodes[i].children))
  }

  lemma ShortenedWellFormed(nodes: seq<DispatcherRec>, r: seq<DispatcherRec>)
    requires WellFormed(nodes) && ShortenedTable(nodes, r)
    ensures WellFormed(r)
  {
    assert ChildrenOrdered(r) by {
      forall i, k | 0 <= i < |r| && 0 <= k < |r[i].children| ensures i < r[i].children[k] < |r| {
        var k' := ShortenedIndex1(r[i].children, nodes[i].children, k);
      }
    }
    assert ParentLinks(r) by {
      forall i, k | 0 <= i < |r| && 0 <= k < |r[i].children| ensures r[r[i].children[k]].parent == Some(i) {
        var k' := ShortenedIndex1(r[i].children, nodes[i].children, k);
        var c := nodes[i].children[k'];
        assert Skeleton(r[c]).parent == Skeleton(nodes[c]).parent;
      }
    }
    assert ParentsBelow(r) by {
      forall i | 0 <= i < |r| && r[i].parent.Some? ensures r[i].parent.value < i {
        assert Skeleton(r[i]).parent == Skeleton(nodes[i]).parent;
      }
    }
    assert ChildGuidsDistinct(r) by {
      forall i, k, l | 0 <= i < |r| && 0 <= k < l < |r[i].children|
        ensures r[r[i].children[k]].guid != r[r[i].children[l]].guid
      {
        var k', l' := ShortenedIndex(r[i].children, nodes[i].children, k, l);
        var c, d := nodes[i].children[k'], nodes[i].children[l'];
        assert Skeleton(r[c]).guid == Skeleton(nodes[c]).guid;
        assert Skeleton(r[d]).guid == Skeleton(nodes[d]).guid;
      }
    }
    assert NeverDisposed(r) by {
      forall i | 0 <= i < |r| ensures !r[i].disposed {
        assert Skeleton(r[i]).disposed == Skeleton(nodes[i]).disposed;
      }
    }
  }

  /** Disposal empties or shortens children maps only, so the structure stays well formed. */
  lemma DisposedWellFormed(nodes: seq<DispatcherRec>, n: NodeId)
    requires WellFormed(nodes) && n < |nodes|
    ensures ShortenedTable(nodes, DisposedNodes(nodes, n))
    ensures WellFormed(DisposedNodes(nodes, n))
  {
    var r := DisposedNodes(nodes, n);
    forall i | 0 <= i < |nodes| ensures Shortened(r[i].children, nodes[i].children) {
      if i !in PostOrder(nodes, n) && nodes[n].parent == Some(i) {
        var cs := nodes[i].children;
        var j := IndexOfGuid(nodes, cs, nodes[n].guid);
        if j < |cs| {
          assert r[i].children == cs[..j] + cs[j + 1..];
        }
      }
    }
    ShortenedWellFormed(nodes, r);
  }

  lemma GuidsAgree(nodes: seq<DispatcherRec>, nodes': seq<DispatcherRec>, xs: seq<NodeId>)
    requires |nodes'| == |nodes|
    requires forall x :: 0 <= x < |nodes| ==> Skeleton(nodes'[x]) == Skeleton(nodes[x])
    ensures GuidsOf(nodes', xs) == GuidsOf(nodes, xs)
  {
    forall g | g in GuidsOf(nodes', xs) ensures g in GuidsOf(nodes, xs) {
      var x :| x in xs && x < |nodes'| && nodes'[x].guid == g;
      assert Skeleton(nodes'[x]).guid == Skeleton(nodes[x]).guid;
    }
    forall g | g in GuidsOf(nodes, xs) ensures g in GuidsOf(nodes', xs) {
      var x :| x in xs && x < |nodes| && nodes[x].guid == g;
      assert Skeleton(nodes'[x]).guid == Skeleton(nodes[x]).guid;
    }
  }

  /** The table after the first `i` children of `n` are disposed (dispatcher.ts:90-91). */
  ghost function MidTable(nodes: seq<DispatcherRec>, n: NodeId, i: nat): (r: seq<DispatcherRec>)
    requires ChildrenOrdered(nodes) && n < |nodes| && i <= |nodes[n].children|
    ensures |r| == |nodes|
  {
    seq(|nodes|, x requires 0 <= x < |nodes| => MidRecord(nodes, n, i, x))
  }

  /** The registry after the first `i` children of `n` are disposed. */
  ghost function MidRegistry(registry: map<string, NodeId>, nodes: seq<DispatcherRec>, n: NodeId, i: nat): map<string, NodeId>
    requires ChildrenOrdered(nodes) && n < |nodes| && i <= |nodes[n].children|
  {
    registry - {nodes[n].guid} - GuidsOf(nodes, ChildrenPostOrder(nodes, n, nodes[n].children[..i]))
  }

  /** The messages sent while disposing the first `i` children of `n`. */
  ghost function MidLog(nodes: seq<DispatcherRec>, n: NodeId, i: nat): seq<Outbound>
    requires ChildrenOrdered(nodes) && n < |nodes| && i <= |nodes[n].children|
  {
    Announcements(nodes, ChildrenPostOrder(nodes, n, nodes[n].children[..i]))
  }

  lemma MidTableOf(nodes: seq<DispatcherRec>, n: NodeId, i: nat, cur: seq<DispatcherRec>)
    requires ChildrenOrdered(nodes) && n < |nodes| && i <= |nodes[n].children|
    requires MidDispose(nodes, n, i, cur)
    ensures cur == MidTable(nodes, n, i)
  {
  }

  lemma MidTableIs(nodes: seq<DispatcherRec>, n: NodeId, i: nat)
    requires ChildrenOrdered(nodes) && n < |nodes| && i <= |nodes[n].children|
    ensures MidDispose(nodes, n, i, MidTable(nodes, n, i))
  {
  }

  /** Before the loop: the table is `Unlink`ed and still well formed. */
  lemma DisposeLoopEntry(nodes: seq<DispatcherRec>, n: NodeId, registry: map<string, NodeId>, log: seq<Outbound>)
    requires WellFormed(nodes) && n < |nodes|
    ensures Unlink(nodes, n) == MidTable(nodes, n, 0)
    ensures WellFormed(MidTable(nodes, n, 0))
    ensures registry - {nodes[n].guid} == MidRegistry(registry, nodes, n, 0)
    ensures MidLog(nodes, n, 0) == []
  {
    assert nodes[n].children[..0] == [];
    assert GuidsOf(nodes, []) == {};
    MidDisposeStart(nodes, n);
    MidTableOf(nodes, n, 0, Unlink(nodes, n));
  }

  /**
   * One round of `_dispose`'s loop over the children snapshot: disposing the
   * `i`-th child of `n` in the partly disposed table advances the table by
   * one child and keeps it well formed.
   */
  lemma DisposeLoopStep(nodes: seq<DispatcherRec>, n: NodeId, i: nat)
    requires WellFormed(nodes) && n < |nodes| && i < |nodes[n].children|
    requires WellFormed(MidTable(nodes, n, i))
    ensures var c, cur := nodes[n].children[i], MidTable(nodes, n, i);
      && n < c < |cur|
      && DisposedNodes(cur, c) == MidTable(nodes, n, i + 1)
      && WellFormed(MidTable(nodes, n, i + 1))
  {
    var c, cur := nodes[n].children[i], MidTable(nodes, n, i);
    MidTableIs(nodes, n, i);
    MidDisposeStep(nodes, n, i, cur);
    MidTableOf(nodes, n, i + 1, DisposedNodes(cur, c));
    DisposedWellFormed(cur, c);
  }

  /** What disposing the `i`-th child reads of the partly disposed table is what it was at the start. */
  lemma DisposeLoopFrame(nodes: seq<DispatcherRec>, n: NodeId, i: nat)
    requires WellFormed(nodes) && n < |nodes| && i < |nodes[n].children|
    requires WellFormed(MidTable(nodes, n, i))
    ensures var c, cur := nodes[n].children[i], MidTable(nodes, n, i);
      && PostOrder(cur, c) == PostOrder(nodes, c)
      && SubtreeGuids(cur, c) == GuidsOf(nodes, PostOrder(nodes, c))
      && DisposeAnnouncements(cur, c) == Announcements(nodes, PostOrder(nodes, c))
  {
    var c, cur := nodes[n].children[i], MidTable(nodes, n, i);
    MidTableIs(nodes, n, i);
    StepFrame(nodes, n, i, cur);
    MidDisposeSkeleton(nodes, n, i, cur);
    GuidsAgree(nodes, cur, PostOrder(nodes, c));
    AnnouncementsAgree(nodes, cur, PostOrder(nodes, c));
  }

  /** The same round removes the guids of exactly that child's subtree from the registry. */
  lemma DisposeLoopRegistry(nodes: seq<DispatcherRec>, n: NodeId, i: nat, registry: map<string, NodeId>)
    requires WellFormed(nodes) && n < |nodes| && i < |nodes[n].children|
    requires WellFormed(MidTable(nodes, n, i))
    ensures var c, cur := nodes[n].children[i], MidTable(nodes, n, i);
      MidRegistry(registry, nodes, n, i) - SubtreeGuids(cur, c) == MidRegistry(registry, nodes, n, i + 1)
  {
    var c := nodes[n].children[i];
    var done := ChildrenPostOrder(nodes, n, nodes[n].children[..i]);
    DisposeLoopFrame(nodes, n, i);
    StepExtends(nodes, n, i);
    GuidsConcat(nodes, done, PostOrder(nodes, c));
  }

  /** The same round sends exactly the announcements of that child's subtree. */
  lemma DisposeLoopLog(nodes: seq<DispatcherRec>, n: NodeId, i: nat, log: seq<Outbound>)
    requires WellFormed(nodes) && n < |nodes| && i < |nodes[n].children|
    requires WellFormed(MidTable(nodes, n, i))
    ensures var c, cur := nodes[n].children[i], MidTable(nodes, n, i);
      log + MidLog(nodes, n, i) + DisposeAnnouncements(cur, c) == log + MidLog(nodes, n, i + 1)
  {
    var c := nodes[n].children[i];
    var done := ChildrenPostOrder(nodes, n, nodes[n].children[..i]);
    DisposeLoopFrame(nodes, n, i);
    StepExtends(nodes, n, i);
    AnnouncementsConcat(nodes, done, PostOrder(nodes, c));
    var a, b := Announcements(nodes, done), Announcements(nodes, PostOrder(nodes, c));
    assert log + a + b == log + (a + b);
  }

  /** After the loop: clearing `n`'s own children map completes the disposed table. */
  lemma DisposeLoopExit(nodes: seq<DispatcherRec>, n: NodeId)
    requires WellFormed(nodes) && n < |nodes|
    ensures var cur := MidTable(nodes, n, |nodes[n].children|);
      && cur[n := cur[n].(children := [])] == DisposedNodes(nodes, n)
      && WellFormed(DisposedNodes(nodes, n))
  {
    MidTableIs(nodes, n, |nodes[n].children|);
    MidDisposeEnd(nodes, n, MidTable(nodes, n, |nodes[n].children|));
    DisposedWellFormed(nodes, n);
  }

  /** With `n`'s own guid, unregistered first, the loop has removed the guids of the whole subtree. */
  lemma DisposeExitRegistry(nodes: seq<DispatcherRec>, n: NodeId, registry: map<string, NodeId>)
    requires ChildrenOrdered(nodes) && n < |nodes|
    ensures MidRegistry(registry, nodes, n, |nodes[n].children|) == registry - SubtreeGuids(nodes, n)
  {
    var cs := nodes[n].children;
    assert cs[..|cs|] == cs;
    PostOrderGuids(nodes, n);
  }

  /** With `n`'s own announcement last, the loop's messages are those of the whole subtree. */
  lemma DisposeExitLog(nodes: seq<DispatcherRec>, n: NodeId, log: seq<Outbound>)
    requires ChildrenOrdered(nodes) && n < |nodes|
    ensures log + MidLog(nodes, n, |nodes[n].children|)
              + (if nodes[n].isScope then [DisposeMessage(nodes[n].guid)] else [])
            == log + DisposeAnnouncements(nodes, n)
  {
    var cs := nodes[n].children;
    assert cs[..|cs|] == cs;
    var below := ChildrenPostOrder(nodes, n, cs);
    assert PostOrder(nodes, n) == below + [n];
    AnnouncementsConcat(nodes, below, [n]);
    assert [n][..0] == [];
    assert Announcements(nodes, [n]) == if nodes[n].isScope then [DisposeMessage(nodes[n].guid)] else [];
    var a, b := Announcements(nodes, below), Announcements(nodes, [n]);
    assert log + a + b == log + (a + b);
  }

  /* ---------------- what disposal announces, and in which order ---------------- */

  /** The announcements of `xs` are the `__dispose__` messages of the scopes among `xs`, and nothing else. */
  lemma {:induction false} AnnouncementsMember(nodes: seq<DispatcherRec>, xs: seq<NodeId>, msg: Outbound)
    requires forall x :: x in xs ==> x < |nodes|
    ensures msg in Announcements(nodes, xs) <==>
      exists x :: x in xs && nodes[x].isScope && msg == DisposeMessage(nodes[x].guid)
    decreases |xs|
  {
    if xs != [] {
      var x, init := xs[|xs| - 1], xs[..|xs| - 1];
      assert xs == init + [x];
      assert x in xs && forall y :: y in init ==> y in xs;
      AnnouncementsMember(nodes, init, msg);
      if msg in Announcements(nodes, xs) && msg !in Announcements(nodes, init) {
        assert nodes[x].isScope && msg == DisposeMessage(nodes[x].guid);
      }
    }
  }

  /** Disposing a scope ends with its own `__dispose__`, after those of everything below it (dispatcher.ts:94-95). */
  lemma ScopeAnnouncedLast(nodes: seq<DispatcherRec>, n: NodeId)
    requires ChildrenOrdered(nodes) && n < |nodes| && nodes[n].isScope
    ensures var a := DisposeAnnouncements(nodes, n);
      |a| > 0 && a[|a| - 1] == DisposeMessage(nodes[n].guid)
  {
    var po := PostOrder(nodes, n);
    assert po[..|po| - 1] == ChildrenPostOrder(nodes, n, nodes[n].children);
  }

  /**
   * Within the disposal of `n`, the announcements of the subtree of any node
   * `x` below it form one contiguous run.
   */
  lemma DisposeAnnouncementsSegment(nodes: seq<DispatcherRec>, n: NodeId, x: NodeId)
    returns (before: seq<Outbound>, after: seq<Outbound>)
    requires ChildrenOrdered(nodes) && n < |nodes| && x in PostOrder(nodes, n)
    ensures DisposeAnnouncements(nodes, n) == before + DisposeAnnouncements(nodes, x) + after
    ensures x != n && nodes[n].isScope ==> |after| > 0 && after[|after| - 1] == DisposeMessage(nodes[n].guid)
  {
    var a, b := PostOrderSegment(nodes, n, x);
    var po, px := PostOrder(nodes, n), PostOrder(nodes, x);
    assert po == (a + px) + b;
    assert forall y :: y in a ==> y in po;
    assert forall y :: y in px ==> y in po;
    assert forall y :: y in b ==> y in po;
    AnnouncementsConcat(nodes, a, px);
    AnnouncementsConcat(nodes, a + px, b);
    before, after := Announcements(nodes, a), Announcements(nodes, b);
    assert DisposeAnnouncements(nodes, x) == Announcements(nodes, px);
    assert DisposeAnnouncements(nodes, n) == Announcements(nodes, (a + px) + b);
    if x != n && nodes[n].isScope {
      AnnouncementsLast(nodes, b);
    }
  }

  /** The announcements of a walk that ends at a scope end with that scope's `__dispose__`. */
  lemma AnnouncementsLast(nodes: seq<DispatcherRec>, xs: seq<NodeId>)
    requires forall x :: x in xs ==> x < |nodes|
    requires |xs| > 0 && xs[|xs| - 1] < |nodes| && nodes[xs[|xs| - 1]].isScope
    ensures var a := Announcements(nodes, xs);
      |a| > 0 && a[|a| - 1] == DisposeMessage(nodes[xs[|xs| - 1]].guid)
  {
  }

  /** A scope below `n` announces its disposal before `n` announces its own (dispatcher.ts:90-95). */
  lemma DescendantScopeAnnouncedFirst(nodes: seq<DispatcherRec>, n: NodeId, x: NodeId) returns (i: nat, j: nat)
    requires ChildrenOrdered(nodes) && n < |nodes| && x in PostOrder(nodes, n) && x != n
    requires nodes[x].isScope && nodes[n].isScope
    ensures var a := DisposeAnnouncements(nodes, n);
      i < j < |a| && a[i] == DisposeMessage(nodes[x].guid) && a[j] == DisposeMessage(nodes[n].guid)
  {
    var before, after := DisposeAnnouncementsSegment(nodes, n, x);
    ScopeAnnouncedLast(nodes, x);
    var ax := DisposeAnnouncements(nodes, x);
    i := |before| + |ax| - 1;
    j := |before| + |ax| + |after| - 1;
    assert DisposeAnnouncements(nodes, n)[i] == ax[|ax| - 1];
    assert DisposeAnnouncements(nodes, n)[j] == after[|after| - 1];
  }

  /**
   * `_disposed` is never set, so the guard at dispatcher.ts:82 lets a second
   * `_dispose` of the same scope through: the record still reads as not
   * disposed, keeps its scope flag and, its children map now empty, announces
   * `__dispose__` once more.
   */
  lemma SecondDisposeAnnouncesAgain(nodes: seq<DispatcherRec>, n: NodeId)
    requires WellFormed(nodes) && n < |nodes| && nodes[n].isScope
    ensures var r := DisposedNodes(nodes, n);
      && WellFormed(r) && !r[n].disposed && r[n].children == []
      && DisposeAnnouncements(r, n) == [DisposeMessage(nodes[n].guid)]
  {
    var r := DisposedNodes(nodes, n);
    DisposedWellFormed(nodes, n);
    var po := PostOrder(nodes, n);
    assert n in po by { assert po[|po| - 1] == n; }
    assert r[n] == nodes[n].(children := []);
    LeafAnnouncement(r, n);
  }

  /** A node with an empty children map is disposed on its own. */
  lemma LeafAnnouncement(nodes: seq<DispatcherRec>, n: NodeId)
    requires ChildrenOrdered(nodes) && n < |nodes| && nodes[n].children == []
    ensures DisposeAnnouncements(nodes, n) == if nodes[n].isScope then [DisposeMessage(nodes[n].guid)] else []
  {
    assert ChildrenPostOrder(nodes, n, []) == [];
    assert PostOrder(nodes, n) == [n];
    assert [n][..0] == [];
    assert Announcements(nodes, [n]) == Announcements(nodes, []) +
      (if nodes[n].isScope then [DisposeMessage(nodes[n].guid)] else []);
  }

  /** A subtree without scopes goes away silently. */
  lemma NoScopeNoAnnouncement(nodes: seq<DispatcherRec>, n: NodeId)
    requires ChildrenOrdered(nodes) && n < |nodes|
    requires forall x :: x in PostOrder(nodes, n) ==> !nodes[x].isScope
    ensures DisposeAnnouncements(nodes, n) == []
  {
    var a := DisposeAnnouncements(nodes, n);
    if a != [] {
      AnnouncementsMember(nodes, PostOrder(nodes, n), a[0]);
      assert false;
    }
  }
}
