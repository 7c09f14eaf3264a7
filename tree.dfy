/**
 * The dispatcher tree of src/rpc/server/dispatcher.ts as a node table.
 *
 * Every `Dispatcher` object ever constructed on a connection is one record of
 * the table; its index is the object's identity. A record holds the
 * dispatcher's readonly fields (`_guid`, `_type`, `_scope`, `_parent`,
 * `_isScope`, `_object`), its `_disposed` flag and its own `_dispatchers` map.
 * That map is keyed by the child's guid and iterated in insertion order, so it
 * is kept as the sequence of child identities in insertion order.
 */
module Tree {
  import opened Wrappers
  import opened Payloads

  /** Identity of a wrapped domain object. */
  type ObjectId = nat

  datatype DispatcherRec = DispatcherRec(
    guid: string,
    typeName: string,
    wrapped: ObjectId,
    isScope: bool,
    parent: Option<NodeId>,
    scope: NodeId,
    children: seq<NodeId>,
    disposed: bool)

  /** A child is always constructed after its parent, so it has a larger identity. */
  ghost predicate ChildrenOrdered(nodes: seq<DispatcherRec>) {
    forall i, k :: 0 <= i < |nodes| && 0 <= k < |nodes[i].children| ==>
      i < nodes[i].children[k] < |nodes|
  }

  /** A node sits only in the children map of the node that is its `_parent`. */
  ghost predicate ParentLinks(nodes: seq<DispatcherRec>)
    requires ChildrenOrdered(nodes)
  {
    forall i, k :: 0 <= i < |nodes| && 0 <= k < |nodes[i].children| ==>
      nodes[nodes[i].children[k]].parent == Some(i)
  }

  ghost predicate ParentsBelow(nodes: seq<DispatcherRec>) {
    forall i :: 0 <= i < |nodes| && nodes[i].parent.Some? ==> nodes[i].parent.value < i
  }

  /** The keys of a children map are distinct guids. */
  ghost predicate ChildGuidsDistinct(nodes: seq<DispatcherRec>)
    requires ChildrenOrdered(nodes)
  {
    forall i, k, l :: 0 <= i < |nodes| && 0 <= k < l < |nodes[i].children| ==>
      nodes[nodes[i].children[k]].guid != nodes[nodes[i].children[l]].guid
  }

  /** Nothing in dispatcher.ts ever sets `_disposed` (it is initialised at line 46 and only read at line 82). */
  ghost predicate NeverDisposed(nodes: seq<DispatcherRec>) {
    forall i :: 0 <= i < |nodes| ==> !nodes[i].disposed
  }

  /** The structural facts that every construction and every disposal keeps. */
  ghost predicate WellFormed(nodes: seq<DispatcherRec>) {
    && ChildrenOrdered(nodes)
    && ParentLinks(nodes)
    && ParentsBelow(nodes)
    && ChildGuidsDistinct(nodes)
    && NeverDisposed(nodes)
  }

  /**
   * The subtree of `n` in the order `_dispose` visits it: the children's
   * subtrees in insertion order, each completed before the next, then `n`.
   */
  ghost function PostOrder(nodes: seq<DispatcherRec>, n: NodeId): (r: seq<NodeId>)
    requires ChildrenOrdered(nodes) && n < |nodes|
    ensures forall x :: x in r ==> n <= x < |nodes|
    ensures |r| > 0 && r[|r| - 1] == n
    decreases |nodes| - n, 1, 0
  {
    ChildrenPostOrder(nodes, n, nodes[n].children) + [n]
  }

  /** The subtrees of the children `cs` of `n`, one after another. */
  ghost function ChildrenPostOrder(nodes: seq<DispatcherRec>, n: NodeId, cs: seq<NodeId>): (r: seq<NodeId>)
    requires ChildrenOrdered(nodes) && n < |nodes|
    requires forall k :: 0 <= k < |cs| ==> n < cs[k] < |nodes|
    ensures forall x :: x in r ==> n < x < |nodes|
    decreases |nodes| - n, 0, |cs|
  {
    if cs == [] then []
    else ChildrenPostOrder(nodes, n, cs[..|cs| - 1]) + PostOrder(nodes, n := cs[|cs| - 1])
  }

  /** The guids of the nodes `xs`. */
  ghost function GuidsOf(nodes: seq<DispatcherRec>, xs: seq<NodeId>): set<string> {
    set x | x in xs && x < |nodes| :: nodes[x].guid
  }

  lemma {:induction false} ChildrenPostOrderMember(nodes: seq<DispatcherRec>, n: NodeId, cs: seq<NodeId>, x: NodeId)
    requires ChildrenOrdered(nodes) && n < |nodes|
    requires forall k :: 0 <= k < |cs| ==> n < cs[k] < |nodes|
    ensures x in ChildrenPostOrder(nodes, n, cs) <==>
            exists k :: 0 <= k < |cs| && x in PostOrder(nodes, cs[k])
    decreases |cs|
  {
    if cs != [] {
      var init, last := cs[..|cs| - 1], cs[|cs| - 1];
      assert forall k :: 0 <= k < |init| ==> init[k] == cs[k];
      assert ChildrenPostOrder(nodes, n, cs) == ChildrenPostOrder(nodes, n, init) + PostOrder(nodes, last);
      ChildrenPostOrderMember(nodes, n, init, x);
      if x in PostOrder(nodes, last) {
        assert 0 <= |cs| - 1 < |cs| && x in PostOrder(nodes, cs[|cs| - 1]);
      } else if x in ChildrenPostOrder(nodes, n, init) {
        var k :| 0 <= k < |init| && x in PostOrder(nodes, init[k]);
        assert 0 <= k < |cs| && x in PostOrder(nodes, cs[k]);
      } else {
        forall k | 0 <= k < |cs| ensures x !in PostOrder(nodes, cs[k]) {
          if k < |init| {
            assert init[k] == cs[k];
          }
        }
      }
    }
  }

  /** A node of the subtree of `c`, other than `c`, sits in the children map of a node of that subtree. */
  lemma {:induction false} SubtreeParent(nodes: seq<DispatcherRec>, c: NodeId, x: NodeId) returns (q: NodeId)
    requires WellFormed(nodes) && c < |nodes|
    requires x in PostOrder(nodes, c) && x != c
    ensures q in PostOrder(nodes, c) && q < |nodes| && x in nodes[q].children
    ensures nodes[x].parent == Some(q)
    decreases |nodes| - c
  {
    var cs := nodes[c].children;
    ChildrenPostOrderMember(nodes, c, cs, x);
    var k :| 0 <= k < |cs| && x in PostOrder(nodes, cs[k]);
    if x == cs[k] {
      q := c;
    } else {
      q := SubtreeParent(nodes, cs[k], x);
      ChildrenPostOrderMember(nodes, c, cs, q);
    }
  }

  /** A child of a node of the subtree of `c` belongs to that subtree. */
  lemma {:induction false} SubtreeClosed(nodes: seq<DispatcherRec>, c: NodeId, q: NodeId, x: NodeId)
    requires WellFormed(nodes) && c < |nodes|
    requires q in PostOrder(nodes, c) && x in nodes[q].children
    ensures x in PostOrder(nodes, c)
    decreases |nodes| - c
  {
    var cs := nodes[c].children;
    if q == c {
      var k :| 0 <= k < |cs| && cs[k] == x;
      ChildrenPostOrderMember(nodes, c, cs, x);
    } else {
      ChildrenPostOrderMember(nodes, c, cs, q);
      var k :| 0 <= k < |cs| && q in PostOrder(nodes, cs[k]);
      SubtreeClosed(nodes, cs[k], q, x);
      ChildrenPostOrderMember(nodes, c, cs, x);
    }
  }

  /** The subtrees of two different children of one node share no node. */
  lemma {:induction false} SiblingsDisjoint(nodes: seq<DispatcherRec>, n: NodeId, k1: nat, k2: nat, x: NodeId)
    requires WellFormed(nodes) && n < |nodes|
    requires k1 < |nodes[n].children| && k2 < |nodes[n].children| && k1 != k2
    ensures x in PostOrder(nodes, nodes[n].children[k1]) ==> x !in PostOrder(nodes, nodes[n].children[k2])
    decreases x
  {
    var c1, c2 := nodes[n].children[k1], nodes[n].children[k2];
    if x in PostOrder(nodes, c1) && x in PostOrder(nodes, c2) {
      assert c1 != c2 by {
        if k1 < k2 { assert nodes[c1].guid != nodes[c2].guid; }
        else { assert nodes[c2].guid != nodes[c1].guid; }
      }
      if x == c1 {
        var q := SubtreeParent(nodes, c2, c1);
        assert false;
      } else if x == c2 {
        var q := SubtreeParent(nodes, c1, c2);
        assert false;
      } else {
        var q1 := SubtreeParent(nodes, c1, x);
        var q2 := SubtreeParent(nodes, c2, x);
        assert q1 == q2;
        SiblingsDisjoint(nodes, n, k1, k2, q1);
        assert false;
      }
    }
  }

  /** The subtree of `n` depends only on the children maps of its own nodes. */
  lemma {:induction false} PostOrderFrame(nodes: seq<DispatcherRec>, nodes': seq<DispatcherRec>, n: NodeId)
    requires ChildrenOrdered(nodes) && ChildrenOrdered(nodes') && |nodes'| == |nodes| && n < |nodes|
    requires forall x :: x in PostOrder(nodes, n) ==> nodes'[x].children == nodes[x].children
    ensures PostOrder(nodes', n) == PostOrder(nodes, n)
    decreases |nodes| - n
  {
    var cs := nodes[n].children;
    forall k | 0 <= k < |cs|
      ensures PostOrder(nodes', cs[k]) == PostOrder(nodes, cs[k])
    {
      forall x | x in PostOrder(nodes, cs[k]) ensures x in PostOrder(nodes, n) {
        ChildrenPostOrderMember(nodes, n, cs, x);
      }
      PostOrderFrame(nodes, nodes', cs[k]);
    }
    ChildrenPostOrderFrame(nodes, nodes', n, cs);
  }

  lemma {:induction false} ChildrenPostOrderFrame(nodes: seq<DispatcherRec>, nodes': seq<DispatcherRec>, n: NodeId, cs: seq<NodeId>)
    requires ChildrenOrdered(nodes) && ChildrenOrdered(nodes') && |nodes'| == |nodes| && n < |nodes|
    requires forall k :: 0 <= k < |cs| ==> n < cs[k] < |nodes|
    requires forall k :: 0 <= k < |cs| ==> PostOrder(nodes', cs[k]) == PostOrder(nodes, cs[k])
    ensures ChildrenPostOrder(nodes', n, cs) == ChildrenPostOrder(nodes, n, cs)
    decreases |cs|
  {
    if cs != [] {
      ChildrenPostOrderFrame(nodes, nodes', n, cs[..|cs| - 1]);
    }
  }
  /** `_debugScopeState`: `{_guid, objects}` with one dump per child, in insertion order. */
  function DebugScopeState(nodes: seq<DispatcherRec>, n: NodeId): (dump: Payload)
    requires ChildrenOrdered(nodes) && n < |nodes|
    ensures dump.Obj? && dump.fields.Keys == {"_guid", "objects"}
    ensures dump.fields["_guid"] == Str(nodes[n].guid)
    ensures dump.fields["objects"].Arr? && |dump.fields["objects"].items| == |nodes[n].children|
    decreases |nodes| - n
  {
    var cs := nodes[n].children;
    Obj(map["_guid" := Str(nodes[n].guid),
            "objects" := Arr(seq(|cs|, k requires 0 <= k < |cs| => DebugScopeState(nodes, cs[k])))])
  }

  /** The guids a dump reports: its own `_guid` and, recursively, those of the dumps under `objects`. */
  ghost function DumpGuids(dump: Payload): set<string> {
    match dump
    case Obj(m) =>
      (if "_guid" in m && m["_guid"].Str? then {m["_guid"].s} else {})
      + (if "objects" in m && m["objects"].Arr? then
           (set k, g | 0 <= k < |m["objects"].items| && g in DumpGuids(m["objects"].items[k]) :: g)
         else {})
    case _ => {}
  }

  /** The guids reported by the dumps of the children of `n`. */
  ghost function ChildDumpGuids(nodes: seq<DispatcherRec>, n: NodeId): set<string>
    requires ChildrenOrdered(nodes) && n < |nodes|
  {
    var cs := nodes[n].children;
    set k, g | 0 <= k < |cs| && g in DumpGuids(DebugScopeState(nodes, cs[k])) :: g
  }

  lemma DumpOneLevel(nodes: seq<DispatcherRec>, n: NodeId)
    requires ChildrenOrdered(nodes) && n < |nodes|
    ensures DumpGuids(DebugScopeState(nodes, n)) == {nodes[n].guid} + ChildDumpGuids(nodes, n)
  {
    var cs := nodes[n].children;
    var items := seq(|cs|, k requires 0 <= k < |cs| => DebugScopeState(nodes, cs[k]));
    assert DebugScopeState(nodes, n) == Obj(map["_guid" := Str(nodes[n].guid), "objects" := Arr(items)]);
    assert forall k :: 0 <= k < |cs| ==> items[k] == DebugScopeState(nodes, cs[k]);
  }

  lemma GuidsConcat(nodes: seq<DispatcherRec>, xs: seq<NodeId>, ys: seq<NodeId>)
    ensures GuidsOf(nodes, xs + ys) == GuidsOf(nodes, xs) + GuidsOf(nodes, ys)
  {
    forall g | g in GuidsOf(nodes, xs + ys) ensures g in GuidsOf(nodes, xs) + GuidsOf(nodes, ys) {
      var x :| x in xs + ys && x < |nodes| && nodes[x].guid == g;
      if x in xs {
        assert g in GuidsOf(nodes, xs);
      } else {
        assert g in GuidsOf(nodes, ys);
      }
    }
    forall g | g in GuidsOf(nodes, xs) + GuidsOf(nodes, ys) ensures g in GuidsOf(nodes, xs + ys) {
      if g in GuidsOf(nodes, xs) {
        var x :| x in xs && x < |nodes| && nodes[x].guid == g;
        assert x in xs + ys;
      } else {
        var x :| x in ys && x < |nodes| && nodes[x].guid == g;
        assert x in xs + ys;
      }
    }
  }

  /** The guids of the subtree of `n`: its own and those strictly below it. */
  lemma PostOrderGuids(nodes: seq<DispatcherRec>, n: NodeId)
    requires ChildrenOrdered(nodes) && n < |nodes|
    ensures GuidsOf(nodes, PostOrder(nodes, n))
         == {nodes[n].guid} + GuidsOf(nodes, ChildrenPostOrder(nodes, n, nodes[n].children))
  {
    var below := ChildrenPostOrder(nodes, n, nodes[n].children);
    assert PostOrder(nodes, n) == below + [n];
    GuidsConcat(nodes, below, [n]);
    assert GuidsOf(nodes, [n]) == {nodes[n].guid};
  }

  /** Given the dumps of the children, the children's dumps report the nodes strictly below `n`. */
  lemma ChildDumpsBelow(nodes: seq<DispatcherRec>, n: NodeId)
    requires ChildrenOrdered(nodes) && n < |nodes|
    requires forall k :: 0 <= k < |nodes[n].children| ==>
      DumpGuids(DebugScopeState(nodes, nodes[n].children[k])) == GuidsOf(nodes, PostOrder(nodes, nodes[n].children[k]))
    ensures ChildDumpGuids(nodes, n) == GuidsOf(nodes, ChildrenPostOrder(nodes, n, nodes[n].children))
  {
    var cs := nodes[n].children;
    var below := ChildrenPostOrder(nodes, n, cs);
    forall g | g in ChildDumpGuids(nodes, n) ensures g in GuidsOf(nodes, below) {
      var k :| 0 <= k < |cs| && g in DumpGuids(DebugScopeState(nodes, cs[k]));
      var x :| x in PostOrder(nodes, cs[k]) && x < |nodes| && nodes[x].guid == g;
      ChildrenPostOrderMember(nodes, n, cs, x);
    }
    forall g | g in GuidsOf(nodes, below) ensures g in ChildDumpGuids(nodes, n) {
      var x :| x in below && x < |nodes| && nodes[x].guid == g;
      ChildrenPostOrderMember(nodes, n, cs, x);
      var k :| 0 <= k < |cs| && x in PostOrder(nodes, cs[k]);
      assert g in DumpGuids(DebugScopeState(nodes, cs[k]));
    }
  }

  /** The dump of `n` reports exactly the guids of the subtree of `n`. */
  lemma {:induction false} DumpReportsSubtree(nodes: seq<DispatcherRec>, n: NodeId)
    requires ChildrenOrdered(nodes) && n < |nodes|
    ensures DumpGuids(DebugScopeState(nodes, n)) == GuidsOf(nodes, PostOrder(nodes, n))
    decreases |nodes| - n
  {
    var cs := nodes[n].children;
    forall k | 0 <= k < |cs| ensures DumpGuids(DebugScopeState(nodes, cs[k])) == GuidsOf(nodes, PostOrder(nodes, cs[k])) {
      DumpReportsSubtree(nodes, cs[k]);
    }
    DumpOneLevel(nodes, n);
    ChildDumpsBelow(nodes, n);
    PostOrderGuids(nodes, n);
  }

  /** A dump is plain data: it holds no dispatcher object, so it goes to the client as it is. */
  lemma {:induction false} DumpNodeFree(nodes: seq<DispatcherRec>, n: NodeId)
    requires ChildrenOrdered(nodes) && n < |nodes|
    ensures !ContainsNode(DebugScopeState(nodes, n))
    decreases |nodes| - n
  {
    var cs := nodes[n].children;
    var items := seq(|cs|, k requires 0 <= k < |cs| => DebugScopeState(nodes, cs[k]));
    forall k | 0 <= k < |cs| ensures !ContainsNode(items[k]) {
      DumpNodeFree(nodes, cs[k]);
    }
    var m := DebugScopeState(nodes, n).fields;
    assert m.Keys == {"_guid", "objects"} && m["objects"] == Arr(items);
    assert !ContainsNode(Arr(items));
  }

  /** The subtrees of a prefix of `cs` come first in the subtrees of `cs`. */
  lemma {:induction false} ChildrenPostOrderPrefix(nodes: seq<DispatcherRec>, n: NodeId, cs: seq<NodeId>, j: nat)
    returns (rest: seq<NodeId>)
    requires ChildrenOrdered(nodes) && n < |nodes|
    requires forall k :: 0 <= k < |cs| ==> n < cs[k] < |nodes|
    requires j <= |cs|
    ensures ChildrenPostOrder(nodes, n, cs) == ChildrenPostOrder(nodes, n, cs[..j]) + rest
    decreases |cs|
  {
    if j == |cs| {
      assert cs[..j] == cs;
      rest := [];
    } else {
      var init := cs[..|cs| - 1];
      assert init[..j] == cs[..j];
      var rest' := ChildrenPostOrderPrefix(nodes, n, init, j);
      rest := rest' + PostOrder(nodes, cs[|cs| - 1]);
    }
  }

  /** The walk of `n` holds the walk of its `k`-th child as one stretch. */
  lemma ChildSegment(nodes: seq<DispatcherRec>, n: NodeId, k: nat) returns (first: seq<NodeId>, rest: seq<NodeId>)
    requires ChildrenOrdered(nodes) && n < |nodes| && k < |nodes[n].children|
    ensures PostOrder(nodes, n) == first + PostOrder(nodes, nodes[n].children[k]) + rest
    ensures |rest| > 0 && rest[|rest| - 1] == n
  {
    var cs := nodes[n].children;
    var tail := ChildrenPostOrderPrefix(nodes, n, cs, k + 1);
    assert cs[..k + 1][..k] == cs[..k];
    assert ChildrenPostOrder(nodes, n, cs[..k + 1]) == ChildrenPostOrder(nodes, n, cs[..k]) + PostOrder(nodes, cs[k]);
    first, rest := ChildrenPostOrder(nodes, n, cs[..k]), tail + [n];
  }

  lemma SeqAssoc(p: seq<NodeId>, q: seq<NodeId>, r: seq<NodeId>, s: seq<NodeId>, t: seq<NodeId>)
    ensures p + (q + r + s) + t == (p + q) + r + (s + t)
  {
  }

  /**
   * In the post-order walk of `n` the walk of any node `x` of the subtree is
   * one contiguous stretch: everything below `x` is visited together, right
   * before `x` itself.
   */
  lemma {:induction false} PostOrderSegment(nodes: seq<DispatcherRec>, n: NodeId, x: NodeId)
    returns (before: seq<NodeId>, after: seq<NodeId>)
    requires ChildrenOrdered(nodes) && n < |nodes| && x in PostOrder(nodes, n)
    ensures PostOrder(nodes, n) == before + PostOrder(nodes, x) + after
    ensures x != n ==> |after| > 0 && after[|after| - 1] == n
    decreases |nodes| - n
  {
    var cs := nodes[n].children;
    if x == n {
      before, after := [], [];
      assert before + PostOrder(nodes, x) + after == PostOrder(nodes, n);
    } else {
      assert x in ChildrenPostOrder(nodes, n, cs);
      ChildrenPostOrderMember(nodes, n, cs, x);
      var k :| 0 <= k < |cs| && x in PostOrder(nodes, cs[k]);
      var first, rest := ChildSegment(nodes, n, k);
      var a, b := PostOrderSegment(nodes, cs[k], x);
      before, after := first + a, b + rest;
      assert after[|after| - 1] == rest[|rest| - 1];
      SeqAssoc(first, a, PostOrder(nodes, x), b, rest);
    }
  }
}
