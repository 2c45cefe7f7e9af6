/** The query side of the type-keyed dispatcher (queries.go). */
module CqrsQueries {
  import opened Wrappers
  import opened CqrsValues
  import opened CqrsBehaviors
  import opened CqrsPipeline

  /** The package-level `queryHandlers` map, keyed on the query's runtime type. */
  class QueryRegistry {
    var queryHandlers: map<TypeKey, Handler>

    /** Every handler is stored under the type of the query it handles. */
    ghost predicate Valid()
      reads this
    {
      forall t :: t in queryHandlers ==> queryHandlers[t].requestType == t
    }

    /** `init()`: the registry starts empty. */
    constructor ()
      ensures queryHandlers == map[]
      ensures Valid()
    {
      queryHandlers := map[];
    }

    /**
     * `RegisterQueryHandler[TQuery, TResponse](handler)`: the handler is
     * stored under TQuery unless that type already has one, in which case the
     * first registration stays and an error names the type.
     */
    method RegisterQueryHandler(handler: Handler) returns (err: Option<Error>)
      requires Valid()
      modifies this
      ensures Valid()
      ensures handler.requestType in old(queryHandlers) ==>
        err == Some(HandlerAlreadyRegistered(QueryRequest, handler.requestType)) &&
        queryHandlers == old(queryHandlers)
      ensures handler.requestType !in old(queryHandlers) ==>
        err == None && queryHandlers == old(queryHandlers)[handler.requestType := handler]
    {
      if handler.requestType in queryHandlers {
        return Some(HandlerAlreadyRegistered(QueryRequest, handler.requestType));
      }
      queryHandlers := queryHandlers[handler.requestType := handler];
      return None;
    }

    /**
     * `Request[TQuery, TResponse](ctx, query)`: look the handler up by the
     * query's runtime type, assert it to the requested handler interface,
     * call it directly when no query behavior is registered, otherwise run
     * it inside the pipeline of query behaviors and down-cast the result.
     */
    method Request(behaviors: BehaviorRegistry, queryType: TypeKey, responseType: TypeKey, query: Value)
      returns (r: Sent)
      ensures r == Dispatch(QueryRequest, queryHandlers, behaviors.queryBehaviors, queryType, responseType, query)
    {
      if query.ty !in queryHandlers {
        return Sent(Zero(responseType), Some(NoHandlerRegistered(QueryRequest, query.ty)));
      }
      var handler := queryHandlers[query.ty];
      if !Assignable(handler, queryType, responseType) {
        return Sent(Zero(responseType), Some(HandlerNotAssignable(QueryRequest, query.ty, responseType)));
      }
      if |behaviors.queryBehaviors| <= 0 {
        var result := handler.handle(query);
        return Sent(Value(handler.responseType, result.payload), result.err);
      }
      var sorted := SortBehaviors(behaviors.queryBehaviors);
      var pipeline := Aggregate(sorted, HandlerCall);
      var run := Invoke(pipeline, query, handler);
      r := Downcast(run.reply, responseType);
    }
  }

  /**
   * Register, then request: after a successful registration, requesting a query of
   * that type with the handler's own types reaches that handler (directly, or
   * through behaviors that all pass through).
   */
  lemma RegisteredHandlerAnswers(handlers: map<TypeKey, Handler>, handler: Handler, behaviors: map<int, Behavior>, query: Value)
    requires handler.requestType !in handlers
    requires query.ty == handler.requestType
    requires forall k :: k in behaviors ==> PassThrough(behaviors[k])
    ensures Dispatch(QueryRequest, handlers[handler.requestType := handler], behaviors,
                     handler.requestType, handler.responseType, query) == Direct(handler, query)
  {
    var registered := handlers[handler.requestType := handler];
    PassThroughDispatchIsDirect(QueryRequest, registered, behaviors, handler.requestType, handler.responseType, query);
  }
}
