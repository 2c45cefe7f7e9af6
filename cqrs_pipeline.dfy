/**
 * The pipeline that Send (cqrs/commands.go) and Request (queries.go) build:
 * the descending list of behaviors folded with the handler call as seed, and
 * the down-cast of what the pipeline returns.
 */
module CqrsPipeline {
  import opened Wrappers
  import opened CqrsValues
  import opened CqrsBehaviors

  /**
   * `linq.From(sorted).AggregateWithSeedT(seed, f)` with
   * `f(next, b) = func() { return b.Handle(ctx, request, next) }`: each step
   * wraps the next behavior around the closure built so far.
   */
  function Aggregate(behaviors: seq<Behavior>, seed: NextFunc): NextFunc
  {
    if behaviors == [] then seed
    else Aggregate(behaviors[1..], BehaviorCall(behaviors[0], seed))
  }

  /** The closure that enters `outerFirst[0]` first, then `outerFirst[1]`, ..., then the handler. */
  function Nest(outerFirst: seq<Behavior>): NextFunc
  {
    if outerFirst == [] then HandlerCall
    else BehaviorCall(outerFirst[0], Nest(outerFirst[1..]))
  }

  function Reverse<T>(s: seq<T>): (r: seq<T>)
    ensures |r| == |s|
    ensures forall i :: 0 <= i < |s| ==> r[i] == s[|s| - 1 - i]
  {
    seq(|s|, i requires 0 <= i < |s| => s[|s| - 1 - i])
  }

  /** Reversing a non-empty list puts its head last. */
  lemma ReverseUncons<T>(s: seq<T>)
    requires s != []
    ensures Reverse(s) == Reverse(s[1..]) + [s[0]]
  {
    var left, right := Reverse(s), Reverse(s[1..]) + [s[0]];
    assert |left| == |right|;
    forall i | 0 <= i < |s|
      ensures left[i] == right[i]
    {
      if i < |s| - 1 {
        assert right[i] == s[1..][|s| - 2 - i];
      }
    }
  }

  /** Folding a list wraps its LAST element outermost: the fold reverses the list. */
  lemma {:induction false} AggregateReverses(behaviors: seq<Behavior>, inner: seq<Behavior>)
    ensures Aggregate(behaviors, Nest(inner)) == Nest(Reverse(behaviors) + inner)
  {
    if behaviors == [] {
      assert Reverse(behaviors) + inner == inner;
    } else {
      var b, rest := behaviors[0], behaviors[1..];
      assert Nest([b] + inner) == BehaviorCall(b, Nest(inner)) by {
        assert ([b] + inner)[1..] == inner;
      }
      calc {
        Aggregate(behaviors, Nest(inner));
        Aggregate(rest, BehaviorCall(b, Nest(inner)));
        Aggregate(rest, Nest([b] + inner));
        { AggregateReverses(rest, [b] + inner); }
        Nest(Reverse(rest) + ([b] + inner));
        { ReverseUncons(behaviors);
          assert Reverse(rest) + ([b] + inner) == (Reverse(rest) + [b]) + inner; }
        Nest(Reverse(behaviors) + inner);
      }
    }
  }

  /** The pipeline Send and Request build from a behavior registry. */
  ghost function Pipeline(behaviors: map<int, Behavior>): NextFunc
  {
    Aggregate(SortedBehaviors(behaviors), HandlerCall)
  }

  /** The registry's keys, smallest first: the order in which the behaviors are entered. */
  ghost function AscendingKeys(behaviors: map<int, Behavior>): (keys: seq<int>)
    ensures forall i, j :: 0 <= i < j < |keys| ==> keys[i] < keys[j]
    ensures forall k :: k in keys <==> k in behaviors
    ensures forall i :: 0 <= i < |keys| ==> keys[i] in behaviors
  {
    var descending := DescendingKeys(behaviors.Keys);
    ReverseDescending(descending);
    Reverse(descending)
  }

  /** Reversing a strictly descending list gives a strictly ascending one with the same members. */
  lemma ReverseDescending(s: seq<int>)
    requires StrictlyDescending(s)
    ensures var r := Reverse(s);
      && (forall i, j :: 0 <= i < j < |r| ==> r[i] < r[j])
      && (forall k :: k in r <==> k in s)
  {
    var r := Reverse(s);
    forall i, j | 0 <= i < j < |r|
      ensures r[i] < r[j]
    {
      assert r[i] == s[|s| - 1 - i] && r[j] == s[|s| - 1 - j];
    }
    forall k
      ensures k in r <==> k in s
    {
      if k in r {
        var i :| 0 <= i < |r| && r[i] == k;
        assert s[|s| - 1 - i] == k;
      }
      if k in s {
        var i :| 0 <= i < |s| && s[i] == k;
        assert r[|s| - 1 - i] == k;
      }
    }
  }

  /** The registry's behaviors, lowest key first. */
  ghost function AscendingBehaviors(behaviors: map<int, Behavior>): (r: seq<Behavior>)
    ensures var keys := AscendingKeys(behaviors);
      |r| == |keys| && forall i :: 0 <= i < |keys| ==> r[i] == behaviors[keys[i]]
  {
    Lookup(behaviors, AscendingKeys(behaviors))
  }

  /** The behaviors registered at `keys`, in the order of `keys`. */
  function Lookup(behaviors: map<int, Behavior>, keys: seq<int>): (r: seq<Behavior>)
    requires forall i :: 0 <= i < |keys| ==> keys[i] in behaviors
    ensures |r| == |keys| && forall i :: 0 <= i < |keys| ==> r[i] == behaviors[keys[i]]
  {
    seq(|keys|, i requires 0 <= i < |keys| => behaviors[keys[i]])
  }

  /** Looking up reversed keys gives the reversed list of behaviors. */
  lemma ReverseLookup(behaviors: map<int, Behavior>, keys: seq<int>)
    requires forall i :: 0 <= i < |keys| ==> keys[i] in behaviors
    ensures forall i :: 0 <= i < |keys| ==> Reverse(keys)[i] in behaviors
    ensures Reverse(Lookup(behaviors, keys)) == Lookup(behaviors, Reverse(keys))
  {
    var n := |keys|;
    var reversedKeys := Reverse(keys);
    forall i | 0 <= i < n
      ensures reversedKeys[i] in behaviors
    {
      assert reversedKeys[i] == keys[n - 1 - i];
    }
    var looked := Lookup(behaviors, keys);
    var left := Reverse(looked);
    var right := Lookup(behaviors, reversedKeys);
    assert |left| == n == |right|;
    forall i | 0 <= i < n
      ensures left[i] == right[i]
    {
      var j := n - 1 - i;
      assert left[i] == looked[j];
      assert reversedKeys[i] == keys[j];
    }
    assert left == right;
  }

  /** The trace entries of entering each of `outerFirst`, in order. */
  function Entries(outerFirst: seq<Behavior>): (r: seq<Step>)
    ensures |r| == |outerFirst| && forall i :: 0 <= i < |outerFirst| ==> r[i] == Entered(outerFirst[i])
  {
    seq(|outerFirst|, i requires 0 <= i < |outerFirst| => Entered(outerFirst[i]))
  }

  /**
   * Composition order: the pipeline nests the behaviors lowest key outermost and
   * the handler innermost, the reverse of the descending list it folds.
   */
  lemma PipelineLowestKeyOutermost(behaviors: map<int, Behavior>)
    ensures Pipeline(behaviors) == Nest(AscendingBehaviors(behaviors))
  {
    var sorted := SortedBehaviors(behaviors);
    AggregateReverses(sorted, []);
    assert Nest([]) == HandlerCall;
    assert Reverse(sorted) + [] == Reverse(sorted);
    ReverseSortedIsAscending(behaviors);
  }

  lemma ReverseSortedIsAscending(behaviors: map<int, Behavior>)
    ensures Reverse(SortedBehaviors(behaviors)) == AscendingBehaviors(behaviors)
  {
    var descending := DescendingKeys(behaviors.Keys);
    assert forall i :: 0 <= i < |descending| ==> descending[i] in behaviors;
    assert SortedBehaviors(behaviors) == Lookup(behaviors, descending);
    ReverseLookup(behaviors, descending);
  }

  /** The trace of a nested chain in which nothing short-circuits: every behavior in order, then the handler. */
  lemma {:induction false} NestTrace(outerFirst: seq<Behavior>, request: Value, handler: Handler)
    requires forall i :: 0 <= i < |outerFirst| ==> outerFirst[i].before(request) == None
    ensures Invoke(Nest(outerFirst), request, handler).trace ==
      Entries(outerFirst) + [HandlerInvoked]
  {
    if outerFirst != [] {
      NestTrace(outerFirst[1..], request, handler);
    }
  }

  /**
   * Execution order: when no behavior short-circuits, Send/Request enter the
   * behavior at key k before the one at key k' whenever k < k', and call the
   * handler last.
   */
  lemma PipelineOrder(behaviors: map<int, Behavior>, request: Value, handler: Handler)
    requires forall k :: k in behaviors ==> behaviors[k].before(request) == None
    ensures Invoke(Pipeline(behaviors), request, handler).trace == Entries(AscendingBehaviors(behaviors)) + [HandlerInvoked]
  {
    PipelineLowestKeyOutermost(behaviors);
    var keys := AscendingKeys(behaviors);
    var outerFirst := AscendingBehaviors(behaviors);
    forall i | 0 <= i < |outerFirst|
      ensures outerFirst[i].before(request) == None
    {
      assert keys[i] in behaviors;
    }
    NestTrace(outerFirst, request, handler);
  }

  /**
   * Short-circuit: if the behavior at position j (outermost first) is the first to
   * answer without calling next, the call returns its answer, the behaviors
   * after it and the handler are never entered.
   */
  lemma {:induction false} NestShortCircuit(outerFirst: seq<Behavior>, j: nat, request: Value, handler: Handler)
    requires j < |outerFirst|
    requires forall i :: 0 <= i < j ==> outerFirst[i].before(request) == None
    requires outerFirst[j].before(request).Some?
    ensures |Invoke(Nest(outerFirst), request, handler).trace| == j + 1
    ensures HandlerInvoked !in Invoke(Nest(outerFirst), request, handler).trace
    ensures Invoke(Nest(outerFirst), request, handler).trace[j] == Entered(outerFirst[j])
  {
    if j > 0 {
      NestShortCircuit(outerFirst[1..], j - 1, request, handler);
    }
  }

  /** With only pass-through behaviors the chain returns exactly what the handler returned. */
  lemma {:induction false} PassThroughKeepsReply(outerFirst: seq<Behavior>, request: Value, handler: Handler)
    requires forall i :: 0 <= i < |outerFirst| ==> PassThrough(outerFirst[i])
    ensures Invoke(Nest(outerFirst), request, handler).reply == HandlerReply(handler, request)
  {
    if outerFirst != [] {
      PassThroughKeepsReply(outerFirst[1..], request, handler);
      var b := outerFirst[0];
      assert PassThrough(b);
      var inner := Invoke(Nest(outerFirst[1..]), request, handler);
      assert b.before(request) == None && b.after(request, inner.reply) == inner.reply;
    }
  }

  /**
   * `res.(TResponse)`: a reply whose value has the response type keeps it;
   * any other reply (nil, or another type) becomes the zero TResponse. Either
   * way the pipeline's error is returned unchanged and no error is added.
   */
  function Downcast(reply: Reply, responseType: TypeKey): (r: Sent)
    ensures r.err == reply.err
    ensures r.response.ty == responseType
    ensures reply.response.Some? && reply.response.value.ty == responseType ==> r.response == reply.response.value
    ensures !(reply.response.Some? && reply.response.value.ty == responseType) ==> r.response == Zero(responseType)
  {
    match reply.response
    case Some(v) => if v.ty == responseType then Sent(v, reply.err) else Sent(Zero(responseType), reply.err)
    case None => Sent(Zero(responseType), reply.err)
  }

  /** `h.(ICommandHandler[TRequest, TResponse])`: the stored handler's Handle has exactly these types. */
  predicate Assignable(handler: Handler, requestType: TypeKey, responseType: TypeKey)
  {
    handler.requestType == requestType && handler.responseType == responseType
  }

  /** What the fast path returns: the handler's own (TResponse, error). */
  function Direct(handler: Handler, request: Value): Sent
  {
    var result := handler.handle(request);
    Sent(Value(handler.responseType, result.payload), result.err)
  }

  /**
   * If every registered behavior passes through, Send/Request with behaviors
   * return exactly what the fast path would: the handler's result unchanged.
   */
  lemma PassThroughPipelineIsDirect(behaviors: map<int, Behavior>, request: Value, handler: Handler)
    requires forall k :: k in behaviors ==> PassThrough(behaviors[k])
    ensures Downcast(Invoke(Pipeline(behaviors), request, handler).reply, handler.responseType) == Direct(handler, request)
  {
    PipelineLowestKeyOutermost(behaviors);
    var keys := AscendingKeys(behaviors);
    var outerFirst := AscendingBehaviors(behaviors);
    forall i | 0 <= i < |outerFirst| ensures PassThrough(outerFirst[i]) {
      assert keys[i] in behaviors;
    }
    PassThroughKeepsReply(outerFirst, request, handler);
  }

  /**
   * What Send (for commands) and Request (for queries) return for a request
   * value, the static types TRequest and TResponse they are instantiated with,
   * the handler registry and the behavior registry of their kind.
   */
  ghost function Dispatch(kind: RequestKind, handlers: map<TypeKey, Handler>, behaviors: map<int, Behavior>,
                          requestType: TypeKey, responseType: TypeKey, request: Value): (r: Sent)
    ensures r.response.ty == responseType
    ensures request.ty !in handlers ==>
      r == Sent(Zero(responseType), Some(NoHandlerRegistered(kind, request.ty)))
    ensures request.ty in handlers && !Assignable(handlers[request.ty], requestType, responseType) ==>
      r == Sent(Zero(responseType), Some(HandlerNotAssignable(kind, request.ty, responseType)))
    ensures request.ty in handlers && Assignable(handlers[request.ty], requestType, responseType) && |behaviors| == 0 ==>
      r == Direct(handlers[request.ty], request)
  {
    if request.ty !in handlers then
      Sent(Zero(responseType), Some(NoHandlerRegistered(kind, request.ty)))
    else
      var handler := handlers[request.ty];
      if !Assignable(handler, requestType, responseType) then
        Sent(Zero(responseType), Some(HandlerNotAssignable(kind, request.ty, responseType)))
      else if |behaviors| == 0 then
        Direct(handler, request)
      else
        Downcast(Invoke(Pipeline(behaviors), request, handler).reply, responseType)
  }

  /**
   * Transparency: a registered, assignable handler behind behaviors that all pass
   * through answers exactly as it would with no behaviors registered.
   */
  lemma PassThroughDispatchIsDirect(kind: RequestKind, handlers: map<TypeKey, Handler>, behaviors: map<int, Behavior>,
                                    requestType: TypeKey, responseType: TypeKey, request: Value)
    requires request.ty in handlers && Assignable(handlers[request.ty], requestType, responseType)
    requires forall k :: k in behaviors ==> PassThrough(behaviors[k])
    ensures Dispatch(kind, handlers, behaviors, requestType, responseType, request) == Direct(handlers[request.ty], request)
    ensures Dispatch(kind, handlers, behaviors, requestType, responseType, request) ==
            Dispatch(kind, handlers, map[], requestType, responseType, request)
  {
    if |behaviors| != 0 {
      PassThroughPipelineIsDirect(behaviors, request, handlers[request.ty]);
    }
  }

  /**
   * Short-circuit: when the behavior with the lowest key answers without calling
   * next, the handler is never invoked and the caller receives that answer,
   * down-cast to TResponse (a value of another type becomes the zero value,
   * the behavior's error is kept).
   */
  lemma LowestBehaviorAnswers(kind: RequestKind, handlers: map<TypeKey, Handler>, behaviors: map<int, Behavior>,
                              requestType: TypeKey, responseType: TypeKey, request: Value, lowest: int)
    requires request.ty in handlers && Assignable(handlers[request.ty], requestType, responseType)
    requires lowest in behaviors && forall k :: k in behaviors ==> lowest <= k
    requires behaviors[lowest].before(request).Some?
    ensures Dispatch(kind, handlers, behaviors, requestType, responseType, request) ==
            Downcast(behaviors[lowest].before(request).value, responseType)
    ensures Invoke(Pipeline(behaviors), request, handlers[request.ty]).trace == [Entered(behaviors[lowest])]
  {
    PipelineLowestKeyOutermost(behaviors);
    LowestKeyFirst(behaviors, lowest);
    var b := behaviors[lowest];
    var outerFirst := AscendingBehaviors(behaviors);
    assert Pipeline(behaviors) == BehaviorCall(b, Nest(outerFirst[1..]));
    assert Invoke(Pipeline(behaviors), request, handlers[request.ty]) == Run(b.before(request).value, [Entered(b)]);
    assert |behaviors| != 0 by {
      assert lowest in behaviors.Keys;
    }
  }

  /** The behavior at the lowest key is the first of the ascending list. */
  lemma LowestKeyFirst(behaviors: map<int, Behavior>, lowest: int)
    requires lowest in behaviors && forall k :: k in behaviors ==> lowest <= k
    ensures AscendingBehaviors(behaviors) != [] && AscendingBehaviors(behaviors)[0] == behaviors[lowest]
  {
    var keys := AscendingKeys(behaviors);
    assert lowest in keys;
    var j :| 0 <= j < |keys| && keys[j] == lowest;
    assert keys[0] in behaviors;
    assert j == 0;
  }
}
