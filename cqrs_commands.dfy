/** The command side of the type-keyed dispatcher (cqrs/commands.go). */
module CqrsCommands {
  import opened Wrappers
  import opened CqrsValues
  import opened CqrsBehaviors
  import opened CqrsPipeline

  /** The package-level `commandHandlers` map, keyed on the command's runtime type. */
  class CommandRegistry {
    var commandHandlers: map<TypeKey, Handler>

    /** Every handler is stored under the type of the command it handles. */
    ghost predicate Valid()
      reads this
    {
      forall t :: t in commandHandlers ==> commandHandlers[t].requestType == t
    }

    /** `init()`: the registry starts empty. */
    constructor ()
      ensures commandHandlers == map[]
      ensures Valid()
    {
      commandHandlers := map[];
    }

    /**
     * `RegisterCommandHandler[TCommand, TResponse](handler)`: the handler is
     * stored under TCommand unless that type already has one, in which case the
     * first registration stays and an error names the type.
     */
    method RegisterCommandHandler(handler: Handler) returns (err: Option<Error>)
      requires Valid()
      modifies this
      ensures Valid()
      ensures handler.requestType in old(commandHandlers) ==>
        err == Some(HandlerAlreadyRegistered(CommandRequest, handler.requestType)) &&
        commandHandlers == old(commandHandlers)
      ensures handler.requestType !in old(commandHandlers) ==>
        err == None && commandHandlers == old(commandHandlers)[handler.requestType := handler]
    {
      if handler.requestType in commandHandlers {
        return Some(HandlerAlreadyRegistered(CommandRequest, handler.requestType));
      }
      commandHandlers := commandHandlers[handler.requestType := handler];
      return None;
    }

    /**
     * `Send[TCommand, TResponse](ctx, command)`: look the handler up by the
     * command's runtime type, assert it to the requested handler interface,
     * call it directly when no command behavior is registered, otherwise run
     * it inside the pipeline of command behaviors and down-cast the result.
     */
    method Send(behaviors: BehaviorRegistry, commandType: TypeKey, responseType: TypeKey, command: Value)
      returns (r: Sent)
      ensures r == Dispatch(CommandRequest, commandHandlers, behaviors.commandBehaviors, commandType, responseType, command)
    {
      if command.ty !in commandHandlers {
        return Sent(Zero(responseType), Some(NoHandlerRegistered(CommandRequest, command.ty)));
      }
      var handler := commandHandlers[command.ty];
      if !Assignable(handler, commandType, responseType) {
        return Sent(Zero(responseType), Some(HandlerNotAssignable(CommandRequest, command.ty, responseType)));
      }
      if |behaviors.commandBehaviors| <= 0 {
        var result := handler.handle(command);
        return Sent(Value(handler.responseType, result.payload), result.err);
      }
      var sorted := SortBehaviors(behaviors.commandBehaviors);
      var pipeline := Aggregate(sorted, HandlerCall);
      var run := Invoke(pipeline, command, handler);
      r := Downcast(run.reply, responseType);
    }
  }

  /**
   * Register, then send: after a successful registration, sending a command of
   * that type with the handler's own types reaches that handler (directly, or
   * through behaviors that all pass through).
   */
  lemma RegisteredHandlerAnswers(handlers: map<TypeKey, Handler>, handler: Handler, behaviors: map<int, Behavior>, command: Value)
    requires handler.requestType !in handlers
    requires command.ty == handler.requestType
    requires forall k :: k in behaviors ==> PassThrough(behaviors[k])
    ensures Dispatch(CommandRequest, handlers[handler.requestType := handler], behaviors,
                     handler.requestType, handler.responseType, command) == Direct(handler, command)
  {
    var registered := handlers[handler.requestType := handler];
    PassThroughDispatchIsDirect(CommandRequest, registered, behaviors, handler.requestType, handler.responseType, command);
  }
}
