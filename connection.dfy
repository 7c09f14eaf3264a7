/**
 * `DispatcherConnection` and the state-changing parts of `Dispatcher`
 * (src/rpc/server/dispatcher.ts): the lookups through `dispatcherSymbol`,
 * construction, `_dispatchEvent`, `_dispose`, `sendMessageToClient`,
 * `rootDispatcher` and `dispatch`, over the connection's node table.
 */
module Connection {
  import opened Wrappers
  import opened Payloads
  import opened Tree
  import opened Messages
  import opened Encoding
  import opened Validation
  import opened Disposal
  import opened Registry

  /**
   * A concrete dispatcher's method for one protocol method: given the
   * dispatcher it is called on and the validated params, a result or a thrown error.
   */
  type Handler = (NodeId, Payload) -> Result<Payload, string>

  /** The methods the concrete dispatcher classes define, by dispatcher type and method name. */
  type Handlers = map<(string, string), Handler>

  /** The generated scheme: validators by scheme name. */
  type Scheme = map<string, Validator>

  /** The error `dispatch` reports for a guid that names no registered dispatcher (dispatcher.ts:159). */
  const TargetClosed := "Target browser or context has been closed"

  /** The TypeError of calling `dispatcher[method]` when the dispatcher has no such method (dispatcher.ts:168). */
  const NotAFunction := "TypeError: dispatcher[method] is not a function"

  /**
   * Stands in for the message of the error that the helper module's `assert`
   * throws when it fails (dispatcher.ts:61, 64); that text is not part of this model.
   */
  const AssertionError := "Assertion error"

  /**
   * Called on a dispatcher of a table of size `bound`, every result a handler
   * can produce refers only to dispatchers of that table; a method may return
   * its own dispatcher.
   */
  ghost predicate HandlersBelow(handlers: Handlers, bound: nat) {
    forall key, d: NodeId, p :: key in handlers && d < bound && handlers[key](d, p).Success? ==> NodesBelow(handlers[key](d, p).value, bound)
  }

  /** A table of methods that each return the dispatcher they are called on (`return this`) is admitted. */
  lemma SelfReturningHandlersAdmitted(handlers: Handlers, bound: nat)
    requires forall key, d: NodeId, p :: key in handlers ==> handlers[key](d, p) == Success(Node(d))
    ensures HandlersBelow(handlers, bound)
  {
  }

  /** The request targets a dispatcher registered in the connection. */
  predicate Targets(dispatchers: map<string, NodeId>, req: Request) {
    req.guid.Str? && req.guid.s in dispatchers
  }

  /** The type of the dispatcher a request targets. */
  function TargetType(nodes: seq<DispatcherRec>, dispatchers: map<string, NodeId>, req: Request): string
    requires RegistryConsistent(nodes, dispatchers) && Targets(dispatchers, req)
  {
    nodes[dispatchers[req.guid.s]].typeName
  }

  /**
   * The scheme built from `tChannel` (dispatcher.ts:142): the validators that
   * `createScheme` derives from the reference validator, its `tChannel`
   * reading the registry as it is when a request arrives.
   */
  function CurrentScheme(nodes: seq<DispatcherRec>, dispatchers: map<string, NodeId>,
                         createScheme: (string -> Validator) -> Scheme): (scheme: Scheme)
    requires RegistryConsistent(nodes, dispatchers)
  {
    createScheme(TChannelFactory(RegistryView(nodes, dispatchers)))
  }

  /**
   * What `dispatch` hands to `onmessage` for `req` (dispatcher.ts:155-173): an
   * error for an unknown target, the root's dump for `debugScopeState`, and
   * otherwise the validated call of the target's method, its result encoded
   * and any error thrown on the way reported.
   */
  function Reply(nodes: seq<DispatcherRec>, dispatchers: map<string, NodeId>,
                 upper: CaseMap, createScheme: (string -> Validator) -> Scheme, handlers: Handlers, req: Request): (r: Outbound)
    requires |nodes| > 0 && ChildrenOrdered(nodes) && RegistryConsistent(nodes, dispatchers)
    requires HandlersBelow(handlers, |nodes|)
    ensures (r.Response? || r.ErrorResponse?) && r.id == req.id
    ensures r.Response? ==> !ContainsNode(r.result)
    ensures !Targets(dispatchers, req) ==> r == ErrorResponse(req.id, TargetClosed)
    ensures Targets(dispatchers, req) && req.methodName == Str("debugScopeState") ==>
      r == Response(req.id, DebugScopeState(nodes, 0))
  {
    if !Targets(dispatchers, req) then
      ErrorResponse(req.id, TargetClosed)
    else if req.methodName == Str("debugScopeState") then
      DumpNodeFree(nodes, 0);
      Response(req.id, DebugScopeState(nodes, 0))
    else
      var typeName := TargetType(nodes, dispatchers, req);
      match ValidateParams(upper, CurrentScheme(nodes, dispatchers, createScheme), typeName, req.methodName, req.params)
      case Failure(e) => ErrorResponse(req.id, e)
      case Success(validated) =>
        var key := (typeName, req.methodName.s);
        if key !in handlers then
          ErrorResponse(req.id, NotAFunction)
        else
          match handlers[key](dispatchers[req.guid.s], validated)
          case Failure(e) => ErrorResponse(req.id, e)
          case Success(result) =>
            match ReplaceDispatchersWithGuids(result, true, nodes)
            case Failure(e) => ErrorResponse(req.id, e)
            case Success(encoded) =>
              ReplaceRemovesNodes(result, true, nodes);
              Response(req.id, encoded)
  }

  /** The `debugScopeState` reply reports exactly the guids of the tree below the root. */
  lemma DebugReplyReportsTree(nodes: seq<DispatcherRec>, dispatchers: map<string, NodeId>,
                              upper: CaseMap, createScheme: (string -> Validator) -> Scheme, handlers: Handlers, req: Request)
    requires |nodes| > 0 && ChildrenOrdered(nodes) && RegistryConsistent(nodes, dispatchers)
    requires HandlersBelow(handlers, |nodes|)
    requires Targets(dispatchers, req) && req.methodName == Str("debugScopeState")
    ensures var r := Reply(nodes, dispatchers, upper, createScheme, handlers, req);
      r.Response? && DumpGuids(r.result) == GuidsOf(nodes, PostOrder(nodes, 0))
  {
    DumpReportsSubtree(nodes, 0);
  }

  /** While the root is registered, every guid the dump reports names a registered dispatcher. */
  lemma DebugReplyRegistered(nodes: seq<DispatcherRec>, dispatchers: map<string, NodeId>, symbols: map<ObjectId, NodeId>,
                             upper: CaseMap, createScheme: (string -> Validator) -> Scheme, handlers: Handlers, req: Request)
    requires ConnectionInvariant(nodes, dispatchers, symbols) && Live(nodes, dispatchers, 0)
    requires HandlersBelow(handlers, |nodes|)
    requires Targets(dispatchers, req) && req.methodName == Str("debugScopeState")
    ensures var r := Reply(nodes, dispatchers, upper, createScheme, handlers, req);
      r.Response? && DumpGuids(r.result) <= dispatchers.Keys
  {
    DebugReplyReportsTree(nodes, dispatchers, upper, createScheme, handlers, req);
    forall g | g in GuidsOf(nodes, PostOrder(nodes, 0)) ensures g in dispatchers {
      var x :| x in PostOrder(nodes, 0) && x < |nodes| && nodes[x].guid == g;
      SubtreeLive(nodes, dispatchers, symbols, 0, x);
    }
  }

  /** A request that fails validation is answered with that error, whatever methods the dispatchers define. */
  lemma ReplyIgnoresHandlersOnInvalidParams(nodes: seq<DispatcherRec>, dispatchers: map<string, NodeId>,
                                            upper: CaseMap, createScheme: (string -> Validator) -> Scheme,
                                            handlers: Handlers, handlers': Handlers, req: Request)
    requires |nodes| > 0 && ChildrenOrdered(nodes) && RegistryConsistent(nodes, dispatchers)
    requires HandlersBelow(handlers, |nodes|) && HandlersBelow(handlers', |nodes|)
    requires Targets(dispatchers, req) && req.methodName != Str("debugScopeState")
    requires ValidateParams(upper, CurrentScheme(nodes, dispatchers, createScheme), TargetType(nodes, dispatchers, req),
                            req.methodName, req.params).Failure?
    ensures var e := ValidateParams(upper, CurrentScheme(nodes, dispatchers, createScheme), TargetType(nodes, dispatchers, req),
                                    req.methodName, req.params).error;
      && Reply(nodes, dispatchers, upper, createScheme, handlers, req) == ErrorResponse(req.id, e)
      && Reply(nodes, dispatchers, upper, createScheme, handlers', req) == ErrorResponse(req.id, e)
  {
  }

  /**
   * Past the registry lookup and the dump, every failure becomes an error reply
   * instead of propagating: a method name that is not a non-empty string, a
   * scheme without an entry for the type and method, a missing method, a
   * throwing method (dispatcher.ts:143-148, 166-172).
   */
  lemma ReplyCatchesErrors(nodes: seq<DispatcherRec>, dispatchers: map<string, NodeId>,
                           upper: CaseMap, createScheme: (string -> Validator) -> Scheme, handlers: Handlers, req: Request)
    requires |nodes| > 0 && ChildrenOrdered(nodes) && RegistryConsistent(nodes, dispatchers)
    requires HandlersBelow(handlers, |nodes|)
    requires Targets(dispatchers, req) && req.methodName != Str("debugScopeState")
    ensures var r, t, d := Reply(nodes, dispatchers, upper, createScheme, handlers, req),
                           TargetType(nodes, dispatchers, req), dispatchers[req.guid.s];
      var v := ValidateParams(upper, CurrentScheme(nodes, dispatchers, createScheme), t, req.methodName, req.params);
      && (!(req.methodName.Str? && |req.methodName.s| > 0) ==> r == ErrorResponse(req.id, MethodNameTypeError))
      && (req.methodName.Str? && |req.methodName.s| > 0 &&
          SchemeName(upper, t, req.methodName).value !in CurrentScheme(nodes, dispatchers, createScheme) ==>
            r == ErrorResponse(req.id, "Unknown scheme for " + t + "." + req.methodName.s))
      && (v.Success? && (t, req.methodName.s) !in handlers ==> r == ErrorResponse(req.id, NotAFunction))
      && (v.Success? && (t, req.methodName.s) in handlers && handlers[(t, req.methodName.s)](d, v.value).Failure? ==>
            r == ErrorResponse(req.id, handlers[(t, req.methodName.s)](d, v.value).error))
  {
  }

  /**
   * A method that returns normally is answered with `{id, result}`, the result
   * encoded with every dispatcher in it replaced by its token (dispatcher.ts:167-169).
   */
  lemma ReplySuccess(nodes: seq<DispatcherRec>, dispatchers: map<string, NodeId>,
                     upper: CaseMap, createScheme: (string -> Validator) -> Scheme, handlers: Handlers, req: Request,
                     result: Payload)
    requires |nodes| > 0 && ChildrenOrdered(nodes) && RegistryConsistent(nodes, dispatchers)
    requires HandlersBelow(handlers, |nodes|)
    requires Targets(dispatchers, req) && req.methodName != Str("debugScopeState")
    requires var v := ValidateParams(upper, CurrentScheme(nodes, dispatchers, createScheme), TargetType(nodes, dispatchers, req),
                                     req.methodName, req.params);
      && v.Success? && req.methodName.Str?
      && (TargetType(nodes, dispatchers, req), req.methodName.s) in handlers
      && handlers[(TargetType(nodes, dispatchers, req), req.methodName.s)](dispatchers[req.guid.s], v.value) == Success(result)
    ensures NodesBelow(result, |nodes|)
    ensures ReplaceDispatchersWithGuids(result, true, nodes).Success?
    ensures Reply(nodes, dispatchers, upper, createScheme, handlers, req) ==
      Response(req.id, ReplaceDispatchersWithGuids(result, true, nodes).value)
  {
    ReplaceFailsIff(result, true, nodes);
  }

  /**
   * A method that returns a registered dispatcher answers with its token, and
   * that token, sent back in a later request, validates to the same dispatcher.
   */
  lemma ReplyTokenRoundTrip(nodes: seq<DispatcherRec>, dispatchers: map<string, NodeId>,
                            upper: CaseMap, createScheme: (string -> Validator) -> Scheme, handlers: Handlers, req: Request,
                            d: NodeId, path: string)
    requires |nodes| > 0 && ChildrenOrdered(nodes) && RegistryConsistent(nodes, dispatchers)
    requires HandlersBelow(handlers, |nodes|)
    requires Targets(dispatchers, req) && req.methodName != Str("debugScopeState")
    requires var v := ValidateParams(upper, CurrentScheme(nodes, dispatchers, createScheme), TargetType(nodes, dispatchers, req),
                                     req.methodName, req.params);
      && v.Success? && req.methodName.Str?
      && (TargetType(nodes, dispatchers, req), req.methodName.s) in handlers
      && handlers[(TargetType(nodes, dispatchers, req), req.methodName.s)](dispatchers[req.guid.s], v.value) == Success(Node(d))
    requires Live(nodes, dispatchers, d)
    ensures var r := Reply(nodes, dispatchers, upper, createScheme, handlers, req);
      && r == Response(req.id, GuidToken(nodes[d].guid))
      && TChannel(RegistryView(nodes, dispatchers), "*", r.result, path) == Success(Node(d))
  {
    TokenResolvesToDispatcher(nodes, dispatchers, d, "*", path);
  }

  /**
   * The creation announcement reads only guids of the old table, which
   * construction keeps, so it encodes on the new table as on the old one.
   */
  lemma AnnouncementFrame(nodes: seq<DispatcherRec>, parent: NodeId, rec: DispatcherRec,
                          typeName: string, initializer: Payload, isScope: bool, guid: string)
    requires parent < |nodes| && NodesBelow(initializer, |nodes|)
    ensures var r := Constructed(nodes, parent, rec);
      && r[parent].guid == nodes[parent].guid
      && NodesBelow(CreateParams(typeName, initializer, guid), |nodes|)
      && NodesBelow(CreateParams(typeName, initializer, guid), |r|)
      && ReplaceDispatchersWithGuids(CreateParams(typeName, initializer, guid), !isScope, r)
         == ReplaceDispatchersWithGuids(CreateParams(typeName, initializer, guid), !isScope, nodes)
  {
    CreateParamsBelow(typeName, initializer, guid, |nodes|);
    ConstructedShape(nodes, parent, rec);
    ReplaceFrame(CreateParams(typeName, initializer, guid), !isScope, nodes, Constructed(nodes, parent, rec));
  }

  /** Disposal, registered dispatcher or not, removes registry entries only and keeps every node's guid. */
  lemma DisposeKeepsRegistryConsistent(nodes: seq<DispatcherRec>, dispatchers: map<string, NodeId>, n: NodeId)
    requires ChildrenOrdered(nodes) && n < |nodes|
    ensures RegistryConsistent(nodes, dispatchers) ==>
      RegistryConsistent(DisposedNodes(nodes, n), dispatchers - SubtreeGuids(nodes, n))
  {
    var r := DisposedNodes(nodes, n);
    forall g | g in dispatchers && dispatchers[g] < |nodes| ensures r[dispatchers[g]].guid == nodes[dispatchers[g]].guid {
      assert Skeleton(r[dispatchers[g]]).guid == Skeleton(nodes[dispatchers[g]]).guid;
    }
  }

  lemma DisposeKeepsInvariant(nodes: seq<DispatcherRec>, dispatchers: map<string, NodeId>, symbols: map<ObjectId, NodeId>, n: NodeId)
    requires WellFormed(nodes) && n < |nodes|
    ensures ConnectionInvariant(nodes, dispatchers, symbols) && Live(nodes, dispatchers, n) ==>
      ConnectionInvariant(DisposedNodes(nodes, n), dispatchers - SubtreeGuids(nodes, n), symbols)
  {
    if ConnectionInvariant(nodes, dispatchers, symbols) && Live(nodes, dispatchers, n) {
      DisposePreservesInvariant(nodes, dispatchers, symbols, n);
    }
  }

  class DispatcherConnection {
    /** Every dispatcher constructed on this connection, by identity. */
    var nodes: seq<DispatcherRec>
    /** `_dispatchers`: the connection-wide registry, guid to dispatcher. */
    var dispatchers: map<string, NodeId>
    /** The `dispatcherSymbol` back-pointers, domain object to dispatcher. */
    var symbols: map<ObjectId, NodeId>
    /** Everything handed to `onmessage`, in order. */
    var log: seq<Outbound>
    /** Errors of `sendMessageToClient` promises that nobody awaits. */
    var rejections: seq<string>
    /** `createScheme` from the validator module, applied to `tChannel`. */
    const createScheme: (string -> Validator) -> Scheme
    /** The runtime's `toUpperCase` on one character, used to build scheme names. */
    const upper: CaseMap

    ghost predicate Valid()
      reads this
    {
      ConnectionInvariant(nodes, dispatchers, symbols)
    }

    /**
     * What answering a request needs: a root, a tree whose children come after
     * their parents, and registry entries naming nodes with those guids. Every
     * `_dispose`, even of an unregistered dispatcher, keeps it.
     */
    ghost predicate Routable()
      reads this
    {
      |nodes| > 0 && ChildrenOrdered(nodes) && RegistryConsistent(nodes, dispatchers)
    }

    /** The connection with its `Root` dispatcher, which wraps `rootObject`. */
    constructor (createScheme: (string -> Validator) -> Scheme, upper: CaseMap, rootObject: ObjectId)
      ensures Valid() && Live(nodes, dispatchers, RootDispatcher())
      ensures nodes == [DispatcherRec("", "", rootObject, true, None, 0, [], false)]
      ensures dispatchers == map["" := 0] && symbols == map[rootObject := 0]
      ensures log == [] && rejections == []
      ensures this.createScheme == createScheme && this.upper == upper
    {
      this.createScheme := createScheme;
      this.upper := upper;
      nodes := [DispatcherRec("", "", rootObject, true, None, 0, [], false)];
      dispatchers := map["" := 0];
      symbols := map[rootObject := 0];
      log := [];
      rejections := [];
    }

    /** `lookupDispatcher`: the dispatcher stored on the object; `debugAssert` demands there is one (dispatcher.ts:25-29). */
    function LookupDispatcher(o: ObjectId): (d: NodeId)
      reads this
      requires o in symbols
      ensures Valid() ==> d < |nodes| && nodes[d].wrapped == o
    {
      symbols[o]
    }

    /** `existingDispatcher`: the dispatcher stored on the object, if any (dispatcher.ts:31-33). */
    function ExistingDispatcher(o: ObjectId): (d: Option<NodeId>)
      reads this
      ensures d.Some? <==> o in symbols
      ensures d.Some? ==> d.value == LookupDispatcher(o)
      ensures Valid() && d.Some? ==> d.value < |nodes| && nodes[d.value].wrapped == o
    {
      if o in symbols then Some(symbols[o]) else None
    }

    /** `lookupNullableDispatcher`: nothing for a null object, and `lookupDispatcher` otherwise (dispatcher.ts:35-37). */
    function LookupNullableDispatcher(o: Option<ObjectId>): (d: Option<NodeId>)
      reads this
      requires o.Some? ==> o.value in symbols
      ensures d.None? <==> o.None?
      ensures Valid() && o.Some? ==> d.Some? && d.value < |nodes| && nodes[d.value].wrapped == o.value
    {
      if o.None? then None else Some(LookupDispatcher(o.value))
    }

    /** `rootDispatcher`: the `Root` built by the constructor (dispatcher.ts:151-153). */
    function RootDispatcher(): (d: NodeId)
      reads this
      ensures Valid() ==> d < |nodes| && IsRootRecord(nodes[d])
    {
      0
    }

    /**
     * `new Dispatcher(parent, obj, typeName, initializer, isScope, guid)` under a
     * dispatcher `parent` (dispatcher.ts:53-75): a guid already registered in the
     * connection fails the assertion and changes nothing; otherwise the new node
     * is registered and announced to the client as `__create__` on the parent's
     * guid, dispatchers being disallowed in the initializer of a scope.
     */
    method Construct(parent: NodeId, obj: ObjectId, typeName: string, initializer: Payload, isScope: bool,
                     guid: Option<string>, random: string) returns (r: Result<NodeId, string>)
      requires Valid() && parent < |nodes| && NodesBelow(initializer, |nodes|)
      modifies this
      ensures Valid()
      ensures var g := GuidFor(typeName, guid, random);
        g in old(dispatchers) ==>
          && r == Failure(AssertionError)
          && nodes == old(nodes) && dispatchers == old(dispatchers) && symbols == old(symbols)
          && log == old(log) && rejections == old(rejections)
      ensures var g, m := GuidFor(typeName, guid, random), |old(nodes)|;
        g !in old(dispatchers) ==>
          && r == Success(m)
          && nodes == Constructed(old(nodes), parent, NewRecord(m, parent, obj, typeName, isScope, g))
          && dispatchers == old(dispatchers)[g := m]
          && symbols == old(symbols)[obj := m]
          && NodesBelow(CreateParams(typeName, initializer, g), m)
          && var announced := ReplaceDispatchersWithGuids(CreateParams(typeName, initializer, g), !isScope, old(nodes));
             && (announced.Success? ==>
                   log == old(log) + [Message(old(nodes)[parent].guid, "__create__", announced.value)]
                   && rejections == old(rejections))
             && (announced.Failure? ==> log == old(log) && rejections == old(rejections) + [announced.error])
    {
      var g := GuidFor(typeName, guid, random);
      if g in dispatchers {
        return Failure(AssertionError);
      }
      var m := |nodes|;
      AnnouncementFrame(nodes, parent, NewRecord(m, parent, obj, typeName, isScope, g), typeName, initializer, isScope, g);
      Register(parent, obj, typeName, isScope, g);
      SendMessageToClient(nodes[parent].guid, "__create__", CreateParams(typeName, initializer, g), isScope);
      r := Success(m);
    }

    /**
     * The registration half of the constructor (dispatcher.ts:56-72): the new
     * node `|nodes|` goes into the connection's registry, into its parent's
     * children map and onto the object's `dispatcherSymbol`.
     */
    method Register(parent: NodeId, obj: ObjectId, typeName: string, isScope: bool, guid: string)
      requires Valid() && parent < |nodes| && guid !in dispatchers
      modifies this
      ensures Valid()
      ensures nodes == Constructed(old(nodes), parent, NewRecord(|old(nodes)|, parent, obj, typeName, isScope, guid))
      ensures dispatchers == old(dispatchers)[guid := |old(nodes)|]
      ensures symbols == old(symbols)[obj := |old(nodes)|]
      ensures log == old(log) && rejections == old(rejections)
      ensures Live(nodes, dispatchers, |old(nodes)|)
      ensures forall x :: 0 <= x < |old(nodes)| ==> (Live(nodes, dispatchers, x) <==> Live(old(nodes), old(dispatchers), x))
    {
      var m := |nodes|;
      ChildGuidsRegistered(nodes, dispatchers, symbols, parent, guid);
      // Under the invariant dispatcher.ts:64 never fires: the parent's children are all registered
      assert forall k :: 0 <= k < |nodes[parent].children| ==> nodes[nodes[parent].children[k]].guid != guid;
      ConstructPreservesInvariant(nodes, dispatchers, symbols, parent, obj, typeName, isScope, guid);
      nodes := Constructed(nodes, parent, NewRecord(m, parent, obj, typeName, isScope, guid));
      dispatchers := dispatchers[guid := m];
      symbols := symbols[obj := m];
    }

    /** `_dispatchEvent`: an event on `n`'s guid; params default to `{}` and may hold dispatchers (dispatcher.ts:77-79). */
    method DispatchEvent(n: NodeId, methodName: string, params: Payload)
      requires n < |nodes| && NodesBelow(params, |nodes|)
      modifies this
      ensures var sent := if params.Undefined? then Obj(map[]) else params;
        && ReplaceDispatchersWithGuids(sent, true, old(nodes)).Success?
        && log == old(log) + [Message(old(nodes)[n].guid, methodName, ReplaceDispatchersWithGuids(sent, true, old(nodes)).value)]
      ensures nodes == old(nodes) && dispatchers == old(dispatchers) && symbols == old(symbols)
      ensures rejections == old(rejections)
    {
      var sent := if params.Undefined? then Obj(map[]) else params;
      ReplaceFailsIff(sent, true, nodes);
      SendMessageToClient(nodes[n].guid, methodName, sent, false);
    }

    /**
     * `sendMessageToClient`: the encoded message goes to `onmessage`. The method
     * is async, so an encoding error rejects its promise instead of reaching
     * the caller.
     */
    method SendMessageToClient(guid: string, methodName: string, params: Payload, disallowDispatchers: bool)
      requires NodesBelow(params, |nodes|)
      modifies this
      ensures var encoded := ReplaceDispatchersWithGuids(params, !disallowDispatchers, old(nodes));
        && (encoded.Success? ==>
              log == old(log) + [Message(guid, methodName, encoded.value)] && rejections == old(rejections))
        && (encoded.Failure? ==>
              log == old(log) && rejections == old(rejections) + [encoded.error])
      ensures nodes == old(nodes) && dispatchers == old(dispatchers) && symbols == old(symbols)
    {
      var encoded := ReplaceDispatchersWithGuids(params, !disallowDispatchers, nodes);
      match encoded
      case Success(p) => log := log + [Message(guid, methodName, p)];
      case Failure(e) => rejections := rejections + [e];
    }

    /**
     * `_dispose` of the dispatcher `n`: unlink it from its parent and from the
     * connection, dispose a snapshot of its children one after another, clear
     * its children map, and announce `__dispose__` if it is a scope.
     */
    method Dispose(n: NodeId)
      requires WellFormed(nodes) && n < |nodes|
      modifies this
      ensures WellFormed(nodes)
      ensures nodes == DisposedNodes(old(nodes), n)
      ensures dispatchers == old(dispatchers) - SubtreeGuids(old(nodes), n)
      ensures log == old(log) + DisposeAnnouncements(old(nodes), n)
      ensures symbols == old(symbols) && rejections == old(rejections)
      ensures old(Valid()) && Live(old(nodes), old(dispatchers), n) ==> Valid()
      ensures old(Routable()) ==> Routable()
      decreases |nodes| - n, 1
    {
      // dispatcher.ts:82 never fires: nothing sets `_disposed`
      assert !nodes[n].disposed;
      ghost var start, startRegistry, startLog := nodes, dispatchers, log;
      var me := nodes[n];
      nodes := Unlink(nodes, n);
      dispatchers := dispatchers - {me.guid};
      DisposeLoopEntry(start, n, startRegistry, startLog);
      assert log == startLog + MidLog(start, n, 0);
      DisposeChildren(start, n, me.children, startRegistry, startLog);
      DisposeLoopExit(start, n);
      DisposeExitRegistry(start, n, startRegistry);
      DisposeExitLog(start, n, startLog);
      nodes := nodes[n := nodes[n].(children := [])];
      DisposeKeepsInvariant(start, startRegistry, symbols, n);
      DisposeKeepsRegistryConsistent(start, startRegistry, n);
      if me.isScope {
        ReplaceNodeFree(Obj(map[]), true, nodes);
        SendMessageToClient(me.guid, "__dispose__", Obj(map[]), false);
      }
    }

    /** The loop of `_dispose` over the snapshot of `n`'s children (dispatcher.ts:90-91). */
    method DisposeChildren(ghost start: seq<DispatcherRec>, n: NodeId, snapshot: seq<NodeId>,
                           ghost startRegistry: map<string, NodeId>, ghost startLog: seq<Outbound>)
      requires WellFormed(start) && n < |start| && snapshot == start[n].children
      requires nodes == MidTable(start, n, 0) && WellFormed(nodes)
      requires dispatchers == MidRegistry(startRegistry, start, n, 0)
      requires log == startLog + MidLog(start, n, 0)
      modifies this
      ensures nodes == MidTable(start, n, |snapshot|)
      ensures dispatchers == MidRegistry(startRegistry, start, n, |snapshot|)
      ensures log == startLog + MidLog(start, n, |snapshot|)
      ensures symbols == old(symbols) && rejections == old(rejections)
      decreases |start| - n, 0
    {
      var i := 0;
      while i < |snapshot|
        invariant 0 <= i <= |snapshot|
        invariant nodes == MidTable(start, n, i)
        invariant WellFormed(nodes)
        invariant dispatchers == MidRegistry(startRegistry, start, n, i)
        invariant log == startLog + MidLog(start, n, i)
        invariant symbols == old(symbols) && rejections == old(rejections)
      {
        var c := snapshot[i];
        ghost var cur := MidTable(start, n, i);
        DisposeLoopStep(start, n, i);
        DisposeLoopRegistry(start, n, i, startRegistry);
        DisposeLoopLog(start, n, i, startLog);
        Dispose(c);
        assert nodes == DisposedNodes(cur, c) == MidTable(start, n, i + 1);
        assert dispatchers == MidRegistry(startRegistry, start, n, i) - SubtreeGuids(cur, c) == MidRegistry(startRegistry, start, n, i + 1);
        assert log == startLog + MidLog(start, n, i) + DisposeAnnouncements(cur, c) == startLog + MidLog(start, n, i + 1);
        i := i + 1;
      }
    }

    /** `dispatch`: answer one inbound request on `onmessage`; nothing else changes (dispatcher.ts:155-173). */
    method Dispatch(req: Request, handlers: Handlers)
      requires Routable() && HandlersBelow(handlers, |nodes|)
      modifies this
      ensures log == old(log) + [Reply(old(nodes), old(dispatchers), upper, createScheme, handlers, req)]
      ensures nodes == old(nodes) && dispatchers == old(dispatchers) && symbols == old(symbols)
      ensures rejections == old(rejections)
    {
      log := log + [Reply(nodes, dispatchers, upper, createScheme, handlers, req)];
    }
  }
}
