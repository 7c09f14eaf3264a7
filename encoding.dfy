/**
 * Outbound encoding: `_replaceDispatchersWithGuids` (src/rpc/server/dispatcher.ts:175-192).
 * Every dispatcher inside a payload becomes its reference token `{guid}`; when
 * dispatchers are not allowed (a scope's creation initializer) meeting one throws.
 */
module Encoding {
  import opened Wrappers
  import opened Payloads
  import opened Tree
  import opened Messages

  /** The message of the error thrown at dispatcher.ts:180, spelling included. */
  const ChannelsNotAllowed := "Channels are not allowed in the scope's initialzier"

  /**
   * `_replaceDispatchersWithGuids`: the payload with every dispatcher replaced
   * by its token, or the error thrown on meeting a dispatcher where none is
   * allowed. With dispatchers allowed it never throws.
   */
  function ReplaceDispatchersWithGuids(p: Payload, allow: bool, nodes: seq<DispatcherRec>): (r: Result<Payload, string>)
    requires NodesBelow(p, |nodes|)
    ensures r.Failure? ==> !allow && r.error == ChannelsNotAllowed
  {
    if IsFalsy(p) then Success(p)
    else match p
      case Node(d) =>
        if !allow then Failure(ChannelsNotAllowed) else Success(GuidToken(nodes[d].guid))
      case Arr(xs) =>
        if exists i :: 0 <= i < |xs| && ReplaceDispatchersWithGuids(xs[i], allow, nodes).Failure? then
          Failure(ChannelsNotAllowed)
        else
          Success(Arr(seq(|xs|, i requires 0 <= i < |xs| => ReplaceDispatchersWithGuids(xs[i], allow, nodes).value)))
      case Obj(m) =>
        if exists k :: k in m && ReplaceDispatchersWithGuids(m[k], allow, nodes).Failure? then
          Failure(ChannelsNotAllowed)
        else
          Success(Obj(map k | k in m :: ReplaceDispatchersWithGuids(m[k], allow, nodes).value))
      case _ => Success(p)
  }

  /** Encoding throws exactly when dispatchers are disallowed and the payload holds one. */
  lemma {:induction false} ReplaceFailsIff(p: Payload, allow: bool, nodes: seq<DispatcherRec>)
    requires NodesBelow(p, |nodes|)
    ensures ReplaceDispatchersWithGuids(p, allow, nodes).Failure? <==> !allow && ContainsNode(p)
    ensures ReplaceDispatchersWithGuids(p, allow, nodes).Failure? ==>
            ReplaceDispatchersWithGuids(p, allow, nodes).error == ChannelsNotAllowed
  {
    match p
    case Arr(xs) =>
      forall i | 0 <= i < |xs| {
        ReplaceFailsIff(xs[i], allow, nodes);
      }
    case Obj(m) =>
      forall k | k in m {
        ReplaceFailsIff(m[k], allow, nodes);
      }
    case _ =>
  }

  /**
   * Falsy values and primitives come back unchanged, arrays element by element
   * with the same length and order, objects with the same keys, and a dispatcher
   * as its token.
   */
  lemma ReplacePreservesShape(p: Payload, allow: bool, nodes: seq<DispatcherRec>)
    requires NodesBelow(p, |nodes|)
    ensures var r := ReplaceDispatchersWithGuids(p, allow, nodes);
      && (IsFalsy(p) || IsPrimitive(p) ==> r == Success(p))
      && (p.Node? ==> r == if allow then Success(GuidToken(nodes[p.id].guid)) else Failure(ChannelsNotAllowed))
      && (p.Arr? && r.Success? ==>
            && r.value.Arr? && |r.value.items| == |p.items|
            && forall i :: 0 <= i < |p.items| ==>
                 ReplaceDispatchersWithGuids(p.items[i], allow, nodes) == Success(r.value.items[i]))
      && (p.Obj? && r.Success? ==>
            && r.value.Obj? && r.value.fields.Keys == p.fields.Keys
            && forall k :: k in p.fields ==>
                 ReplaceDispatchersWithGuids(p.fields[k], allow, nodes) == Success(r.value.fields[k]))
  {
  }

  /** An encoded payload holds no dispatcher: only guid tokens. */
  lemma {:induction false} ReplaceRemovesNodes(p: Payload, allow: bool, nodes: seq<DispatcherRec>)
    requires NodesBelow(p, |nodes|)
    requires ReplaceDispatchersWithGuids(p, allow, nodes).Success?
    ensures !ContainsNode(ReplaceDispatchersWithGuids(p, allow, nodes).value)
  {
    match p
    case Arr(xs) =>
      forall i | 0 <= i < |xs| {
        ReplaceRemovesNodes(xs[i], allow, nodes);
      }
    case Obj(m) =>
      forall k | k in m {
        ReplaceRemovesNodes(m[k], allow, nodes);
      }
    case _ =>
  }

  /** A payload without dispatchers is its own encoding. */
  lemma {:induction false} ReplaceNodeFree(p: Payload, allow: bool, nodes: seq<DispatcherRec>)
    requires !ContainsNode(p) && NodesBelow(p, |nodes|)
    ensures ReplaceDispatchersWithGuids(p, allow, nodes) == Success(p)
  {
    if !IsFalsy(p) {
      match p
      case Arr(xs) =>
        forall i | 0 <= i < |xs| ensures ReplaceDispatchersWithGuids(xs[i], allow, nodes) == Success(xs[i]) {
          ReplaceNodeFree(xs[i], allow, nodes);
        }
        assert seq(|xs|, i requires 0 <= i < |xs| => ReplaceDispatchersWithGuids(xs[i], allow, nodes).value) == xs;
      case Obj(m) =>
        forall k | k in m ensures ReplaceDispatchersWithGuids(m[k], allow, nodes) == Success(m[k]) {
          ReplaceNodeFree(m[k], allow, nodes);
        }
        var m' := map k | k in m :: ReplaceDispatchersWithGuids(m[k], allow, nodes).value;
        assert m' == m;
        assert !exists k :: k in m && ReplaceDispatchersWithGuids(m[k], allow, nodes).Failure?;
        assert ReplaceDispatchersWithGuids(p, allow, nodes) == Success(Obj(m'));
      case _ =>
    }
  }

  /** Encoding twice is encoding once. */
  lemma ReplaceIdempotent(p: Payload, allow: bool, nodes: seq<DispatcherRec>)
    requires NodesBelow(p, |nodes|)
    requires ReplaceDispatchersWithGuids(p, allow, nodes).Success?
    ensures var q := ReplaceDispatchersWithGuids(p, allow, nodes).value;
            NodesBelow(q, |nodes|) && ReplaceDispatchersWithGuids(q, allow, nodes) == Success(q)
  {
    var q := ReplaceDispatchersWithGuids(p, allow, nodes).value;
    ReplaceRemovesNodes(p, allow, nodes);
    NodeFreeBelow(q, |nodes|);
    ReplaceNodeFree(q, allow, nodes);
  }

  lemma {:induction false} NodeFreeBelow(p: Payload, bound: nat)
    requires !ContainsNode(p)
    ensures NodesBelow(p, bound)
  {
    match p
    case Arr(xs) =>
      forall i | 0 <= i < |xs| {
        NodeFreeBelow(xs[i], bound);
      }
    case Obj(m) =>
      forall k | k in m {
        NodeFreeBelow(m[k], bound);
      }
    case _ =>
  }

  /** An object encodes field by field when no field throws. */
  lemma ObjEncodes(m: map<string, Payload>, allow: bool, nodes: seq<DispatcherRec>)
    requires forall k :: k in m ==> NodesBelow(m[k], |nodes|)
    requires forall k :: k in m ==> ReplaceDispatchersWithGuids(m[k], allow, nodes).Success?
    ensures ReplaceDispatchersWithGuids(Obj(m), allow, nodes) ==
      Success(Obj(map k | k in m :: ReplaceDispatchersWithGuids(m[k], allow, nodes).value))
  {
    var r := ReplaceDispatchersWithGuids(Obj(m), allow, nodes);
    assert r.Success?;
    ReplacePreservesShape(Obj(m), allow, nodes);
    assert r.value.fields == map k | k in m :: ReplaceDispatchersWithGuids(m[k], allow, nodes).value;
  }

  /**
   * Encoding only reads the guids of the dispatchers the payload holds, so a
   * table that keeps those guids (one that grew, or changed only children maps)
   * encodes the payload the same way.
   */
  lemma {:induction false} ReplaceFrame(p: Payload, allow: bool, nodes: seq<DispatcherRec>, nodes': seq<DispatcherRec>)
    requires NodesBelow(p, |nodes|) && |nodes| <= |nodes'|
    requires forall x :: 0 <= x < |nodes| ==> nodes'[x].guid == nodes[x].guid
    ensures NodesBelow(p, |nodes'|)
    ensures ReplaceDispatchersWithGuids(p, allow, nodes') == ReplaceDispatchersWithGuids(p, allow, nodes)
  {
    NodesBelowGrows(p, |nodes|, |nodes'|);
    if !IsFalsy(p) {
      match p
      case Arr(xs) =>
        forall i | 0 <= i < |xs|
          ensures ReplaceDispatchersWithGuids(xs[i], allow, nodes') == ReplaceDispatchersWithGuids(xs[i], allow, nodes)
        {
          ReplaceFrame(xs[i], allow, nodes, nodes');
        }
        ArrFrame(xs, allow, nodes, nodes');
      case Obj(m) =>
        forall k | k in m
          ensures ReplaceDispatchersWithGuids(m[k], allow, nodes') == ReplaceDispatchersWithGuids(m[k], allow, nodes)
        {
          ReplaceFrame(m[k], allow, nodes, nodes');
        }
        ObjFrame(m, allow, nodes, nodes');
      case _ =>
    }
  }

  /** An array encodes alike on two tables when each of its elements does. */
  lemma ArrFrame(xs: seq<Payload>, allow: bool, nodes: seq<DispatcherRec>, nodes': seq<DispatcherRec>)
    requires forall i :: 0 <= i < |xs| ==> NodesBelow(xs[i], |nodes|) && NodesBelow(xs[i], |nodes'|)
    requires forall i :: 0 <= i < |xs| ==>
      ReplaceDispatchersWithGuids(xs[i], allow, nodes') == ReplaceDispatchersWithGuids(xs[i], allow, nodes)
    ensures ReplaceDispatchersWithGuids(Arr(xs), allow, nodes') == ReplaceDispatchersWithGuids(Arr(xs), allow, nodes)
  {
    if !exists i :: 0 <= i < |xs| && ReplaceDispatchersWithGuids(xs[i], allow, nodes).Failure? {
      assert seq(|xs|, i requires 0 <= i < |xs| => ReplaceDispatchersWithGuids(xs[i], allow, nodes').value)
          == seq(|xs|, i requires 0 <= i < |xs| => ReplaceDispatchersWithGuids(xs[i], allow, nodes).value);
    }
  }

  /** An object encodes alike on two tables when each of its fields does. */
  lemma ObjFrame(m: map<string, Payload>, allow: bool, nodes: seq<DispatcherRec>, nodes': seq<DispatcherRec>)
    requires forall k :: k in m ==> NodesBelow(m[k], |nodes|) && NodesBelow(m[k], |nodes'|)
    requires forall k :: k in m ==>
      ReplaceDispatchersWithGuids(m[k], allow, nodes') == ReplaceDispatchersWithGuids(m[k], allow, nodes)
    ensures ReplaceDispatchersWithGuids(Obj(m), allow, nodes') == ReplaceDispatchersWithGuids(Obj(m), allow, nodes)
  {
    if !exists k :: k in m && ReplaceDispatchersWithGuids(m[k], allow, nodes).Failure? {
      ObjEncodes(m, allow, nodes);
      ObjEncodes(m, allow, nodes');
      FieldsAgree(m, allow, nodes, nodes');
    } else {
      var k :| k in m && ReplaceDispatchersWithGuids(m[k], allow, nodes).Failure?;
      assert ReplaceDispatchersWithGuids(m[k], allow, nodes').Failure?;
    }
  }

  lemma FieldsAgree(m: map<string, Payload>, allow: bool, nodes: seq<DispatcherRec>, nodes': seq<DispatcherRec>)
    requires forall k :: k in m ==> NodesBelow(m[k], |nodes|) && NodesBelow(m[k], |nodes'|)
    requires forall k :: k in m ==>
      ReplaceDispatchersWithGuids(m[k], allow, nodes') == ReplaceDispatchersWithGuids(m[k], allow, nodes)
    requires forall k :: k in m ==> ReplaceDispatchersWithGuids(m[k], allow, nodes).Success?
    ensures (map k | k in m :: ReplaceDispatchersWithGuids(m[k], allow, nodes').value)
         == (map k | k in m :: ReplaceDispatchersWithGuids(m[k], allow, nodes).value)
  {
  }

  /** The params `{ type, initializer, guid }` of a creation announcement (dispatcher.ts:74) hold dispatchers only inside the initializer. */
  lemma CreateParamsBelow(typeName: string, initializer: Payload, guid: string, bound: nat)
    requires NodesBelow(initializer, bound)
    ensures NodesBelow(CreateParams(typeName, initializer, guid), bound)
  {
  }

  /**
   * When the initializer encodes, the creation params encode to the record
   * `{ type, initializer, guid }` around the encoded initializer.
   */
  lemma CreateParamsEncodes(typeName: string, initializer: Payload, guid: string, allow: bool, nodes: seq<DispatcherRec>)
    requires NodesBelow(initializer, |nodes|) && ReplaceDispatchersWithGuids(initializer, allow, nodes).Success?
    ensures NodesBelow(CreateParams(typeName, initializer, guid), |nodes|)
    ensures var r := ReplaceDispatchersWithGuids(CreateParams(typeName, initializer, guid), allow, nodes);
      && r.Success? && r.value.Obj?
      && r.value.fields.Keys == {"type", "initializer", "guid"}
      && r.value.fields["type"] == Str(typeName)
      && r.value.fields["initializer"] == ReplaceDispatchersWithGuids(initializer, allow, nodes).value
      && r.value.fields["guid"] == Str(guid)
  {
    var p := CreateParams(typeName, initializer, guid);
    ReplaceFailsIff(initializer, allow, nodes);
    ReplaceFailsIff(p, allow, nodes);
    ReplacePreservesShape(p, allow, nodes);
    ReplacePreservesShape(Str(typeName), allow, nodes);
    ReplacePreservesShape(Str(guid), allow, nodes);
  }

  /** When the initializer throws, so does the creation announcement, with the same error. */
  lemma CreateParamsFails(typeName: string, initializer: Payload, guid: string, allow: bool, nodes: seq<DispatcherRec>)
    requires NodesBelow(initializer, |nodes|) && ReplaceDispatchersWithGuids(initializer, allow, nodes).Failure?
    ensures NodesBelow(CreateParams(typeName, initializer, guid), |nodes|)
    ensures ReplaceDispatchersWithGuids(CreateParams(typeName, initializer, guid), allow, nodes) ==
      Failure(ReplaceDispatchersWithGuids(initializer, allow, nodes).error)
  {
    var p := CreateParams(typeName, initializer, guid);
    ReplaceFailsIff(initializer, allow, nodes);
    assert ReplaceDispatchersWithGuids(p.fields["initializer"], allow, nodes).Failure?;
  }

  /**
   * The creation announcement throws exactly when dispatchers are disallowed
   * (the new dispatcher is a scope) and the initializer holds one (dispatcher.ts:74, 178-180).
   */
  lemma CreateParamsFailsIff(typeName: string, initializer: Payload, guid: string, allow: bool, nodes: seq<DispatcherRec>)
    requires NodesBelow(initializer, |nodes|)
    ensures NodesBelow(CreateParams(typeName, initializer, guid), |nodes|)
    ensures ReplaceDispatchersWithGuids(CreateParams(typeName, initializer, guid), allow, nodes).Failure? <==>
      !allow && ContainsNode(initializer)
  {
    ReplaceFailsIff(initializer, allow, nodes);
    if ReplaceDispatchersWithGuids(initializer, allow, nodes).Success? {
      CreateParamsEncodes(typeName, initializer, guid, allow, nodes);
    } else {
      CreateParamsFails(typeName, initializer, guid, allow, nodes);
    }
  }
}
