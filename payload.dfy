/**
 * The JSON-like values that travel through the connection: request parameters,
 * method results, creation initializers. A `Node` is a live dispatcher object
 * embedded in such a value, referred to by its identity in the connection's
 * node table.
 */
module Payloads {

  /** Identity of a dispatcher object: its index in the connection's node table. */
  type NodeId = nat

  datatype Payload =
    | Undefined
    | Null
    | Bool(b: bool)
    | Num(n: int)
    | Str(s: string)
    | Arr(items: seq<Payload>)
    | Obj(fields: map<string, Payload>)
    | Node(id: NodeId)

  /** JavaScript falsiness (`!payload`): undefined, null, false, 0 and "". */
  predicate IsFalsy(p: Payload) {
    p.Undefined? || p.Null? || p == Bool(false) || p == Num(0) || p == Str("")
  }

  /** Booleans, numbers and strings: values `typeof` reports as neither object nor array. */
  predicate IsPrimitive(p: Payload) {
    p.Bool? || p.Num? || p.Str?
  }

  /** True when some dispatcher object occurs anywhere inside `p`. */
  predicate ContainsNode(p: Payload) {
    match p
    case Node(_) => true
    case Arr(xs) => exists i :: 0 <= i < |xs| && ContainsNode(xs[i])
    case Obj(m) => exists k :: k in m && ContainsNode(m[k])
    case _ => false
  }

  /** Every dispatcher object inside `p` exists in a node table of size `bound`. */
  predicate NodesBelow(p: Payload, bound: nat) {
    match p
    case Node(d) => d < bound
    case Arr(xs) => forall i :: 0 <= i < |xs| ==> NodesBelow(xs[i], bound)
    case Obj(m) => forall k :: k in m ==> NodesBelow(m[k], bound)
    case _ => true
  }

  lemma {:induction false} NodesBelowGrows(p: Payload, bound: nat, bound': nat)
    requires NodesBelow(p, bound) && bound <= bound'
    ensures NodesBelow(p, bound')
  {
    match p
    case Arr(xs) =>
      forall i | 0 <= i < |xs| ensures NodesBelow(xs[i], bound') {
        NodesBelowGrows(xs[i], bound, bound');
      }
    case Obj(m) =>
      forall k | k in m ensures NodesBelow(m[k], bound') {
        NodesBelowGrows(m[k], bound, bound');
      }
    case _ =>
  }

  /** The reference token `{guid}` that stands for a dispatcher on the wire. */
  function GuidToken(guid: string): Payload {
    Obj(map["guid" := Str(guid)])
  }
}
