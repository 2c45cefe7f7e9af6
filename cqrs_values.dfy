/**
 * Values shared by the type-keyed generation of the dispatcher (package cqrs):
 * runtime type identities, dynamic values, errors and handlers.
 */
module CqrsValues {
  import opened Wrappers

  /** The identity `reflect.TypeOf` gives a value; the registries are keyed on it. */
  datatype TypeKey = TypeKey(name: string)

  /** A non-nil dynamic value held in an `interface{}`: its runtime type and an opaque payload. */
  datatype Value = Value(ty: TypeKey, payload: int)

  /** The zero value of a type (`*new(T)`); payload 0 stands for "all fields zero". */
  function Zero(ty: TypeKey): Value
  {
    Value(ty, 0)
  }

  /** The two request pipelines; they only differ in the wording of their messages. */
  datatype RequestKind = CommandRequest | QueryRequest

  /**
   * The errors the core creates, each carrying what its message formats, and
   * `Raised` for an error returned by user code (a handler, behavior or subscriber).
   */
  datatype Error =
    | PositionTaken(kind: RequestKind, order: int)
    | HandlerAlreadyRegistered(kind: RequestKind, requestType: TypeKey)
    | NoHandlerRegistered(kind: RequestKind, requestType: TypeKey)
    | HandlerNotAssignable(kind: RequestKind, requestType: TypeKey, responseType: TypeKey)
    | NoEventHandler(eventType: TypeKey)
    | NoHandlersProvided
    | Raised(message: string)

  /** `(interface{}, error)` as a behavior or a NextFunc returns it; `None` is a nil interface. */
  datatype Reply = Reply(response: Option<Value>, err: Option<Error>)

  /** `(TResponse, error)` as Send and Request return it. */
  datatype Sent = Sent(response: Value, err: Option<Error>)

  /** What a handler's `Handle` returns: the payload of its TResponse and an error. */
  datatype HandlerResult = HandlerResult(payload: int, err: Option<Error>)

  /**
   * A value implementing `ICommandHandler[TRequest, TResponse]` (or the query
   * equivalent): its Handle method's parameter and result types, and what it does.
   */
  datatype Handler = Handler(requestType: TypeKey, responseType: TypeKey, handle: Value -> HandlerResult)
}
