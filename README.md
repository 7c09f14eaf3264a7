# Dispatcher tree and router of the RPC server

This project models the server side of the object-dispatch protocol in
`src/rpc/server/dispatcher.ts`. A `DispatcherConnection` exposes a tree of
`Dispatcher` objects to a remote client. Each dispatcher is addressed by a guid.
The client calls methods on dispatchers and receives replies, `__create__`
announcements and `__dispose__` announcements.

The model has these parts:

- **Payloads** (`payload.dfy`, `messages.dfy`). JSON-like values hold
  dispatchers as `Node(id)`. The records passed to `onmessage` are modelled too.
  The three reply forms are `{guid, method, params}`, `{id, result}` and
  `{id, error}`.
- **The dispatcher tree** (`tree.dfy`). Every dispatcher constructed on a
  connection is one record of an append-only node table. The record's index is
  the object's identity. Its `_dispatchers` children map keeps insertion order,
  as a JavaScript `Map` does, so it is kept as a sequence of child identities.
  This file also holds `_debugScopeState` and the post-order walk that
  `_dispose` makes.
- **Disposal** (`disposal.dfy`). Pure functions give the node table, registry
  and outbound messages after `_dispose`. Lemmas cover the order of the
  `__dispose__` announcements and the steps of the loop over the children
  snapshot.
- **Registry** (`registry.dfy`). This is the connection-wide invariant tying the
  guid registry to the tree:
  - registered guids name nodes that carry them;
  - children are registered;
  - registered nodes sit in their parent's children map;
  - scopes are fixed at construction;
  - the `dispatcherSymbol` side table points back at the owning dispatcher.

  Construction keeps this invariant, and so does disposal of a registered
  dispatcher.
- **Encoding** (`encoding.dfy`). `_replaceDispatchersWithGuids` is a recursive
  function, with lemmas on its shape, its failure condition, idempotence and the
  `__create__` params.
- **Validation** (`validation.dfy`). This part models the `tChannel` validator,
  the scheme-name computation and `_validateParams`. The runtime's
  `toUpperCase` is a parameter, a map from one character to a string. Lemmas fix
  its ASCII part and show what a one-to-many mapping such as "ß" to "SS" does to
  scheme names.
- **Connection** (`connection.dfy`). `DispatcherConnection` is a class holding:
  - the node table;
  - the registry;
  - the `dispatcherSymbol` side table;
  - the log of everything handed to `onmessage`;
  - the errors of `sendMessageToClient` promises that nobody awaits.

  Its methods are construction, `_dispatchEvent`, `sendMessageToClient`,
  `_dispose` (recursive, with the loop over the children snapshot) and
  `dispatch`. Each method's postcondition ties the new state to the functions
  above.

Three behaviours of the code are modelled as written:

- `_disposed` is initialised to `false` (dispatcher.ts:46) and read by the guard
  at dispatcher.ts:82, but nothing sets it. The guard never fires.
  `Tree.NeverDisposed` is part of the invariant. `Disposal.SecondDisposeAnnouncesAgain`
  shows that a second `_dispose` of a scope goes through and announces
  `__dispose__` again. Double disposal is therefore not rejected.
- A non-scope dispatcher's `_scope` is its parent, not its parent's scope
  (dispatcher.ts:59). Nothing stops a dispatcher being constructed under a
  non-scope parent (`Registry.ScopesFixed`, `Construct`). In that case `_scope`
  names a non-scope node, despite the comment at dispatcher.ts:42.
- `sendMessageToClient` is `async` (dispatcher.ts:120). A scope initializer
  that holds a dispatcher therefore does not make the constructor throw. The
  thrown error rejects a promise that nobody awaits. The dispatcher stays
  constructed and registered, and no `__create__` is sent. `Construct` records
  the error in `rejections`.

## Model

| member | source | states |
|---|---|---|
| Connection.DispatcherConnection.constructor | src/rpc/server/dispatcher.ts:108-126 | A new connection holds just the `Root`: guid "", type "", a scope without a parent. It is registered, and nothing is sent. |
| Connection.DispatcherConnection.LookupDispatcher | src/rpc/server/dispatcher.ts:25-29 | The dispatcher stored on an object wraps that object. The `debugAssert` is a precondition. |
| Connection.DispatcherConnection.ExistingDispatcher | src/rpc/server/dispatcher.ts:31-33 | Returns a dispatcher exactly when the object has one, and then it is the one `lookupDispatcher` gives. |
| Connection.DispatcherConnection.LookupNullableDispatcher | src/rpc/server/dispatcher.ts:35-37 | Returns nothing exactly for a null object. Otherwise, under the invariant, it returns the table entry that wraps the object. |
| Connection.DispatcherConnection.RootDispatcher | src/rpc/server/dispatcher.ts:151-153 | The root dispatcher is the `Root` record (guid "", type "", scope, no parent). |
| Connection.DispatcherConnection.Construct | src/rpc/server/dispatcher.ts:53-75 | Called while the connection invariant holds. A guid already registered fails the assertion and changes nothing. Otherwise the registry, the parent's children map and the symbol table gain the new node, and nothing else changes. One `__create__` `{type, initializer, guid}` goes to the parent's guid, or the encoding error is rejected when a scope's initializer holds a dispatcher. The invariant is kept. |
| Connection.DispatcherConnection.Register | src/rpc/server/dispatcher.ts:56-72 | Registration adds exactly the new guid and the new child entry. The new node is live, and every old node is live exactly when it was. While the invariant holds, the parent-map assertion of line 64 cannot fire. |
| Connection.DispatcherConnection.DispatchEvent | src/rpc/server/dispatcher.ts:77-79 | Appends exactly one message to the dispatcher's own guid, with params defaulting to `{}` and dispatchers encoded as tokens. The tree is unchanged. |
| Connection.DispatcherConnection.SendMessageToClient | src/rpc/server/dispatcher.ts:120-123 | Appends the encoded message, or records the encoding error as a rejected promise and appends nothing. |
| Connection.DispatcherConnection.Dispose | src/rpc/server/dispatcher.ts:81-96 | The table becomes `DisposedNodes` (subtree children maps cleared, the entry removed from the parent's map, nothing else changed). The registry loses exactly the subtree's guids. The log gains exactly `DisposeAnnouncements` (the `__dispose__` of the subtree's scopes in post-order). Disposing a registered dispatcher keeps the invariant. |
| Connection.DispatcherConnection.DisposeChildren | src/rpc/server/dispatcher.ts:89-92 | The loop over the snapshot of the children disposes them one after another. Table, registry and log advance by one child's subtree per round. |
| Connection.DispatcherConnection.Dispatch | src/rpc/server/dispatcher.ts:155-173 | Needs only `Routable` (a root, ordered children, registry entries naming nodes with those guids), which every `_dispose` keeps. Appends exactly one reply, `Reply` of the state, and leaves the tree, registry and symbols unchanged. |
| Connection.Reply | src/rpc/server/dispatcher.ts:155-173 | The reply carries the request's id. Params are validated by the scheme `createScheme(tChannel)` builds over the registry as it is when the request arrives (line 142). An unknown guid gives the "target closed" error, `debugScopeState` gives the root's dump, and a successful result holds no dispatcher. |
| Connection.SelfReturningHandlersAdmitted | src/rpc/server/dispatcher.ts:166-169 | Methods that return the dispatcher they are called on satisfy the handler condition of `Dispatch` and the `Reply` lemmas. |
| Connection.ReplySuccess | src/rpc/server/dispatcher.ts:166-169 | When the params validate and the method returns a result, the reply is `{id, result}` with that result encoded, dispatchers allowed; the encoding cannot fail. |
| Connection.DisposeKeepsRegistryConsistent | src/rpc/server/dispatcher.ts:84-92 | Disposing any dispatcher, registered or not, leaves every remaining registry entry naming a node with that guid. |
| Connection.ReplyCatchesErrors | src/rpc/server/dispatcher.ts:143-172 | A method name that is not a non-empty string, a missing scheme entry, a missing method and a throwing method each give an `{id, error}` reply with that error. |
| Connection.ReplyIgnoresHandlersOnInvalidParams | src/rpc/server/dispatcher.ts:166-171 | When validation fails, the method is never reached: the reply is the validation error whatever the handlers are. |
| Connection.ReplyTokenRoundTrip | src/rpc/server/dispatcher.ts:166-169 | A method returning a live dispatcher is answered with its `{guid}` token. That token validates back to the same dispatcher. |
| Connection.DebugReplyReportsTree | src/rpc/server/dispatcher.ts:162-164 | The `debugScopeState` reply reports exactly the guids of the root's subtree. |
| Connection.DebugReplyRegistered | src/rpc/server/dispatcher.ts:162-164 | While the root is registered, every guid in the dump is registered. |
| Tree.DebugScopeState | src/rpc/server/dispatcher.ts:98-103 | The dump is an object with exactly the keys `_guid` and `objects`. `_guid` is the node's guid and `objects` has one entry per child. |
| Tree.DumpReportsSubtree | src/rpc/server/dispatcher.ts:98-103 | `_debugScopeState` of a node reports its own guid and, recursively, exactly those of its subtree. |
| Tree.DumpNodeFree | src/rpc/server/dispatcher.ts:98-103 | A dump holds no dispatcher object. |
| Tree.PostOrderSegment | src/rpc/server/dispatcher.ts:89-95 | In the disposal walk, every node's subtree is one contiguous stretch ending at that node. |
| Tree.SiblingsDisjoint | src/rpc/server/dispatcher.ts:89-91 | The subtrees of two different children share no node. |
| Disposal.Unlink | src/rpc/server/dispatcher.ts:85-86 | Only the parent's record changes, and only its children map. With distinct child guids, that map loses exactly the child keyed by the disposed guid. |
| Disposal.DeleteGuid | src/rpc/server/dispatcher.ts:85-86 | `Map.delete`: the entry with that guid goes and the others keep their order. |
| Disposal.ScopeAnnouncedLast | src/rpc/server/dispatcher.ts:94-95 | Disposing a scope ends with its own `__dispose__`. |
| Disposal.DescendantScopeAnnouncedFirst | src/rpc/server/dispatcher.ts:89-95 | A scope below a disposed scope announces `__dispose__` strictly before its ancestor. |
| Disposal.NoScopeNoAnnouncement | src/rpc/server/dispatcher.ts:94 | A subtree without scopes is removed silently. |
| Disposal.AnnouncementsMember | src/rpc/server/dispatcher.ts:89-95 | Disposal sends exactly the `__dispose__` messages (params `{}`) of the subtree's scopes, and nothing else. |
| Disposal.DisposeAnnouncementsSegment | src/rpc/server/dispatcher.ts:89-95 | The announcements of any sub-subtree form one contiguous run, before the ancestor scope's own. |
| Disposal.SecondDisposeAnnouncesAgain | src/rpc/server/dispatcher.ts:82 | After disposal the record still reads as not disposed, so a second `_dispose` of a scope announces `__dispose__` again. The guard is vacuous. |
| Disposal.DisposeLoopStep | src/rpc/server/dispatcher.ts:90-91 | One loop round disposes the next snapshot child and keeps the table well formed. |
| Registry.GuidFor | src/rpc/server/dispatcher.ts:53 | The guid is the explicit one, or `type + '@' + random`. |
| Registry.LiveUnique | src/rpc/server/dispatcher.ts:61-62 | Two registered dispatchers share a guid only if they are the same dispatcher. |
| Registry.ConstructPreservesInvariant | src/rpc/server/dispatcher.ts:61-72 | Constructing under an unregistered guid keeps the connection invariant. The new node is registered, and old nodes keep their liveness. |
| Registry.DisposePreservesInvariant | src/rpc/server/dispatcher.ts:84-92 | Disposing a registered dispatcher keeps the invariant. Afterwards exactly the nodes live outside its subtree are live. |
| Registry.SubtreeLive | src/rpc/server/dispatcher.ts:84-91 | Every node below a registered dispatcher is registered, so disposal unregisters live nodes only. |
| Encoding.ReplaceDispatchersWithGuids | src/rpc/server/dispatcher.ts:175-192 | The only error is "not allowed in the scope's initialzier", and only when dispatchers are disallowed. |
| Encoding.ReplaceFailsIff | src/rpc/server/dispatcher.ts:175-192 | Encoding throws exactly when dispatchers are disallowed and the payload holds one, with the "not allowed in the scope's initialzier" error. |
| Encoding.ReplacePreservesShape | src/rpc/server/dispatcher.ts:175-192 | Falsy values and primitives come back unchanged. Arrays map element-wise with the same length and order. Objects keep exactly their keys, an own `__proto__` key aside (see below). A dispatcher becomes `{guid}`. |
| Encoding.ReplaceRemovesNodes | src/rpc/server/dispatcher.ts:175-192 | An encoded payload holds no dispatcher. |
| Encoding.ReplaceNodeFree | src/rpc/server/dispatcher.ts:175-192 | A payload without dispatchers is its own encoding. |
| Encoding.ReplaceIdempotent | src/rpc/server/dispatcher.ts:175-192 | Encoding an encoded payload changes nothing. |
| Encoding.CreateParamsEncodes | src/rpc/server/dispatcher.ts:74 | The `__create__` params encode to `{type, initializer, guid}` around the encoded initializer. |
| Encoding.CreateParamsFailsIff | src/rpc/server/dispatcher.ts:74 | The `__create__` params fail to encode exactly for a scope whose initializer holds a dispatcher. |
| Validation.TChannel | src/rpc/server/dispatcher.ts:128-141 | Succeeds exactly for a `{guid: string}` token of a registered dispatcher whose type is the expected one, or any type for `'*'`. The result is that dispatcher. |
| Validation.TChannelFactory | src/rpc/server/dispatcher.ts:128-141 | The factory's validator for a name accepts exactly the tokens of registered dispatchers of that type, or of any type for `'*'`. |
| Validation.TChannelRejects | src/rpc/server/dispatcher.ts:128-141 | A non-token gives "expected channel", an unregistered guid gives "no object with guid", and a type mismatch gives "object with guid … has type …, expected …", each prefixed with the path. |
| Validation.ToUpper | src/rpc/server/dispatcher.ts:144 | The ASCII part of upper-casing: a-z become A-Z, 32 code points lower. `AsciiFaithful` holds the case map to it on a-z only. |
| Validation.TokenResolvesToDispatcher | src/rpc/server/dispatcher.ts:128-141 | The encoding of a registered dispatcher validates back to that dispatcher. |
| Validation.SchemeName | src/rpc/server/dispatcher.ts:144 | The scheme name is the type, then the upper-cased first character (however many characters the case map gives), then the rest of the method, then `Params`. An empty or non-string method is a TypeError. |
| Validation.SchemeNameAscii | src/rpc/server/dispatcher.ts:144 | For a case map that agrees with the runtime on ASCII, a method starting with a-z gets that letter in upper case. |
| Validation.SchemeNameAstral | src/rpc/server/dispatcher.ts:144 | For a case map that, as the runtime does on a lone high surrogate, keeps characters outside the Basic Multilingual Plane, a method starting with one keeps its name unchanged in the scheme name. |
| Validation.SchemeNameInjective | src/rpc/server/dispatcher.ts:144 | When the first characters upper-case to one character each, two methods of one type share a scheme name exactly when they agree after upper-casing the first character. |
| Validation.SchemeNameCollides | src/rpc/server/dispatcher.ts:144 | With the runtime's "ß" to "SS", the methods "ßa" and "SSa" of one type share the scheme name "TSSaParams". |
| Validation.ValidateParams | src/rpc/server/dispatcher.ts:143-148 | A name missing from the scheme gives "Unknown scheme for type.method". Otherwise the result is that validator applied to the params at path "". |

## Left out

- `src/rpc/server.ts` (stdio transport, JSON framing, process exit) is not part of this model: it is I/O and process lifecycle.
- `src/rpc/server/selectorsDispatcher.ts` is not part of this model. Concrete dispatcher methods are the `handlers` table parameter.
- `test-runner/src/testRunner.ts` is not part of this model: it is test-runner glue around Mocha.
- The `async`/`await` interleaving of `dispatch` and `sendMessageToClient` is not modelled. Each `dispatch` is atomic, so a call racing with the disposal of its target is not modelled.
- Concrete dispatcher methods are pure functions from the target dispatcher and the validated params to a result or an error. The model does not capture methods that construct or dispose dispatchers while they run.
- `String.prototype.toUpperCase` applied to `method[0]` is the `upper` case-map parameter of the connection. `method[0]` is a UTF-16 code unit while `upper` acts on a whole character, so a case map faithful to the runtime must keep characters outside the Basic Multilingual Plane (`Validation.AstralKept`). Only that and the ASCII part (`Validation.AsciiFaithful`) are fixed; the Unicode case tables are not modelled. Strings are sequences of Unicode scalar values, so method names holding lone surrogates cannot be represented.
- Encoding.ReplacePreservesShape: an own key `"__proto__"` (which `JSON.parse` can produce) is not modelled. The code's `result[key] = …` on a `{}` literal (dispatcher.ts:186-188) runs the prototype setter for it and drops the key, while the model keeps it.
- Connection.DispatcherConnection.Dispatch: a `null` message is not modelled. Destructuring it at dispatcher.ts:156 throws inside the async `dispatch`, which rejects its promise and sends no reply. A `Request` is always an object here, so "exactly one reply" holds for object messages only.
- Connection.DispatcherConnection.Construct: modelled only while the connection invariant holds. A second `_dispose` of a dispatcher whose guid was re-registered elsewhere deletes that guid again and breaks the invariant. A construction after that can register a half-built dispatcher at dispatcher.ts:62 and then fail the assertion at dispatcher.ts:64. That path is not modelled.
- Connection.DispatcherConnection.Register: modelled only while the connection invariant holds, for the same reason as `Construct`. The failure of the assertion at dispatcher.ts:64, after the guid is already registered at line 62, is not modelled.
- `helper.guid()` is the `random` parameter of `Construct`.
- `createScheme` is the `createScheme` parameter of the connection. `serializeError` is reduced to the error's message, and the stack is not modelled.
- `EventEmitter` inheritance is left out: the dispatcher never uses it in this file.
- Numbers are unbounded integers. `NaN` and `-0`, which JavaScript also treats as falsy, are not modelled.
- Property order of objects is not modelled, because objects are maps.
- Connection.DispatcherConnection.Dispose: disposing an unregistered dispatcher is modelled, since it is what the code does. The invariant is promised only when the dispatcher was registered.
