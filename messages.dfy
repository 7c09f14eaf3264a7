/** The records exchanged with the client (`onmessage` payloads and `dispatch` input). */
module Messages {
  import opened Payloads

  /** What the connection hands to `onmessage`. */
  datatype Outbound =
    | Message(guid: string, methodName: string, params: Payload)   // { guid, method, params }
    | Response(id: Payload, result: Payload)                           // { id, result }
    | ErrorResponse(id: Payload, error: string)                        // { id, error: serializeError(e) }

  /** A decoded inbound request `{ id, guid, method, params }`; its fields are whatever the client sent. */
  datatype Request = Request(id: Payload, guid: Payload, methodName: Payload, params: Payload)

  /** The disposal announcement of a scope: `__dispose__` with params `{}`, sent to its own guid. */
  function DisposeMessage(guid: string): Outbound {
    Message(guid, "__dispose__", Obj(map[]))
  }

  /** The creation announcement's params `{ type, initializer, guid }`, before encoding. */
  function CreateParams(typeName: string, initializer: Payload, guid: string): Payload {
    Obj(map["type" := Str(typeName), "initializer" := initializer, "guid" := Str(guid)])
  }
}
