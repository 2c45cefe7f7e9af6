/**
 * The behaviors of the anchor-style mediator (the files under behaviors/): each behavior
 * holds the `NextAction`/`NextRequest` it calls on, the validation behavior
 * looks a validator up by type name, the event-dispatch behavior commits the
 * domain events after the command ran, the others (logging, metrics) pass the
 * reply through.
 */
module MediatorBehaviors {
  import opened Wrappers
  import opened MediatorNames

  /** A command or query value (`commands.ICommand`, `queries.IQuery`): its `%T` name and an opaque payload. */
  datatype Message = Message(typeName: string, payload: int)

  /** `(IResponse, error)`: an optional response and an optional error message. */
  datatype Reply = Reply(response: Option<int>, err: Option<string>)

  /** A command or query handler: its `%T` name and what its HandleCommand/HandleQuery does. */
  datatype Handler = Handler(typeName: string, handle: Message -> Reply)

  /** A validator: its `%T` name and what Validate returns (nil or an error message). */
  datatype Validator = Validator(typeName: string, validate: Message -> Option<string>)

  /** The runtime panics the mediator can raise. */
  datatype Fault =
    | CommandHandlerNotFound(commandType: string)
    | QueryHandlerNotFound(queryType: string)
    | IndexOutOfRange(index: int)
    | NilFunctionCall

  /** What a call gives back to its caller: a reply, or a panic unwinding through it. */
  datatype Outcome = Returned(reply: Reply) | Faulted(fault: Fault)

  /** What a run does on its way, in order. */
  datatype Effect = Entered(behaviorType: string) | HandlerCalled(handlerType: string) | DomainEventsCommitted

  datatype Run = Run(outcome: Outcome, effects: seq<Effect>)

  /** The concrete behavior types. */
  datatype BehaviorKind =
    | ValidationBehavior(commandValidators: seq<Validator>, queryValidators: seq<Validator>)
    | EventDispatchBehavior
    | PassThroughBehavior(typeName: string)

  const ValidationBehaviorName: string := "*behaviors.ValidationBehavior"
  const EventDispatchBehaviorName: string := "*behaviors.EventDispatchBehavior"

  /** `fmt.Sprintf("%T", behavior)`. */
  function TypeName(kind: BehaviorKind): string
  {
    match kind
    case ValidationBehavior(_, _) => ValidationBehaviorName
    case EventDispatchBehavior => EventDispatchBehaviorName
    case PassThroughBehavior(name) => name
  }

  /** What a `NextAction`/`NextRequest` field holds: nil, another behavior's handle method, or a handler's. */
  datatype Next = NilNext | BehaviorNext(behavior: Behavior) | HandlerNext(handler: Handler)

  /** The `IndexFunc` test of the validation behavior: the validator's last name segment contains the message's. */
  function ValidatorMatches(message: Message): Validator -> bool
  {
    (v: Validator) => Contains(LastSegment(v.typeName), LastSegment(message.typeName))
  }

  /** The error the validation behavior stops on: the first matching validator's, when there is a validator list. */
  function Verdict(validators: seq<Validator>, message: Message): (err: Option<string>)
    ensures validators == [] ==> err == None
    ensures IndexFunc(validators, ValidatorMatches(message)) == -1 ==> err == None
    ensures err.Some? ==> exists i ::
      && 0 <= i < |validators|
      && validators[i].validate(message) == err
      && ValidatorMatches(message)(validators[i])
      && (forall j :: 0 <= j < i ==> !ValidatorMatches(message)(validators[j]))
    ensures forall i ::
      (&& 0 <= i < |validators|
       && ValidatorMatches(message)(validators[i])
       && (forall j :: 0 <= j < i ==> !ValidatorMatches(message)(validators[j])))
      ==> err == validators[i].validate(message)
  {
    if |validators| <= 0 then None
    else
      var index := IndexFunc(validators, ValidatorMatches(message));
      if index > -1 then validators[index].validate(message) else None
  }

  /** Calling the last `next` of a chain: the handler Send/Request installed, or a nil function. */
  function CallTerminal(terminal: Option<Handler>, message: Message): Run
  {
    match terminal
    case None => Run(Faulted(NilFunctionCall), [])
    case Some(handler) => Run(Returned(handler.handle(message)), [HandlerCalled(handler.typeName)])
  }

  function Enter(kind: BehaviorKind, inner: Run): Run
  {
    Run(inner.outcome, [Entered(TypeName(kind))] + inner.effects)
  }

  /** A command run through the chain of behaviors `kinds`, outermost first, ending in `terminal`. */
  function RunCommand(kinds: seq<BehaviorKind>, terminal: Option<Handler>, command: Message): Run
    decreases |kinds|
  {
    if kinds == [] then CallTerminal(terminal, command)
    else
      var kind := kinds[0];
      match kind
      case ValidationBehavior(validators, _) =>
        var err := Verdict(validators, command);
        if err.Some? then Run(Returned(Reply(None, err)), [Entered(TypeName(kind))])
        else Enter(kind, RunCommand(kinds[1..], terminal, command))
      case EventDispatchBehavior =>
        var inner := RunCommand(kinds[1..], terminal, command);
        if inner.outcome.Returned? then Run(inner.outcome, [Entered(TypeName(kind))] + inner.effects + [DomainEventsCommitted])
        else Enter(kind, inner)
      case PassThroughBehavior(_) => Enter(kind, RunCommand(kinds[1..], terminal, command))
  }

  /** A query run through the chain of behaviors `kinds`, outermost first, ending in `terminal`. */
  function RunQuery(kinds: seq<BehaviorKind>, terminal: Option<Handler>, query: Message): Run
    decreases |kinds|
  {
    if kinds == [] then CallTerminal(terminal, query)
    else
      var kind := kinds[0];
      match kind
      case ValidationBehavior(_, validators) =>
        var err := Verdict(validators, query);
        if err.Some? then Run(Returned(Reply(None, err)), [Entered(TypeName(kind))])
        else Enter(kind, RunQuery(kinds[1..], terminal, query))
      case EventDispatchBehavior => Enter(kind, RunQuery(kinds[1..], terminal, query))
      case PassThroughBehavior(_) => Enter(kind, RunQuery(kinds[1..], terminal, query))
  }

  function Kinds(chain: seq<Behavior>): (kinds: seq<BehaviorKind>)
    ensures |kinds| == |chain| && forall i :: 0 <= i < |chain| ==> kinds[i] == chain[i].kind
  {
    seq(|chain|, i requires 0 <= i < |chain| => chain[i].kind)
  }

  function TerminalOf(next: Next): Option<Handler>
  {
    if next.HandlerNext? then Some(next.handler) else None
  }

  /** Each behavior's NextAction is the next behavior's HandleCommand, and the last one's is not a behavior's. */
  ghost predicate CommandChain(chain: seq<Behavior>)
    reads set b | b in chain
  {
    |chain| > 0 &&
    (forall j :: 0 <= j < |chain| - 1 ==> chain[j].nextAction == BehaviorNext(chain[j + 1])) &&
    !chain[|chain| - 1].nextAction.BehaviorNext?
  }

  /** Each behavior's NextRequest is the next behavior's HandleQuery, and the last one's is not a behavior's. */
  ghost predicate QueryChain(chain: seq<Behavior>)
    reads set b | b in chain
  {
    |chain| > 0 &&
    (forall j :: 0 <= j < |chain| - 1 ==> chain[j].nextRequest == BehaviorNext(chain[j + 1])) &&
    !chain[|chain| - 1].nextRequest.BehaviorNext?
  }

  /** A behavior value (`*ValidationBehavior`, `*EventDispatchBehavior`, ...) with its embedded `Behavior` fields. */
  class Behavior {
    const kind: BehaviorKind
    var nextAction: Next
    var nextRequest: Next

    /** `NewValidationBehavior(params)` and the other constructors: both next fields nil. */
    constructor (kind: BehaviorKind)
      ensures this.kind == kind && nextAction == NilNext && nextRequest == NilNext
    {
      this.kind := kind;
      nextAction := NilNext;
      nextRequest := NilNext;
    }

    /** `SetNextAction(next)`: replaces NextAction only. */
    method SetNextAction(next: Next)
      modifies this`nextAction
      ensures nextAction == next && nextRequest == old(nextRequest)
    {
      nextAction := next;
    }

    /** `SetNextRequest(next)`: replaces NextRequest only. */
    method SetNextRequest(next: Next)
      modifies this`nextRequest
      ensures nextRequest == next && nextAction == old(nextAction)
    {
      nextRequest := next;
    }

    /**
     * `HandleCommand(ctx, command)` of this behavior, at position `i` of the
     * chain it is wired into: what it does itself around a call of NextAction.
     */
    method HandleCommand(command: Message, ghost chain: seq<Behavior>, ghost i: nat) returns (run: Run)
      requires CommandChain(chain) && i < |chain| && chain[i] == this
      ensures run == RunCommand(Kinds(chain[i..]), TerminalOf(chain[|chain| - 1].nextAction), command)
      decreases |chain| - i, 1
    {
      assert Kinds(chain[i..])[0] == kind;
      assert Kinds(chain[i..])[1..] == Kinds(chain[i + 1..]);
      match kind
      case ValidationBehavior(validators, _) =>
        if |validators| > 0 {
          var index := IndexFunc(validators, ValidatorMatches(command));
          if index > -1 {
            var err := validators[index].validate(command);
            if err.Some? {
              return Run(Returned(Reply(None, err)), [Entered(TypeName(kind))]);
            }
          }
        }
        var inner := CallNextAction(command, chain, i);
        return Enter(kind, inner);
      case EventDispatchBehavior =>
        var inner := CallNextAction(command, chain, i);
        if inner.outcome.Returned? {
          return Run(inner.outcome, [Entered(TypeName(kind))] + inner.effects + [DomainEventsCommitted]);
        }
        return Enter(kind, inner);
      case PassThroughBehavior(_) =>
        var inner := CallNextAction(command, chain, i);
        return Enter(kind, inner);
    }

    /** `behavior.NextAction(ctx, command)`. */
    method CallNextAction(command: Message, ghost chain: seq<Behavior>, ghost i: nat) returns (run: Run)
      requires CommandChain(chain) && i < |chain| && chain[i] == this
      ensures run == RunCommand(Kinds(chain[i + 1..]), TerminalOf(chain[|chain| - 1].nextAction), command)
      decreases |chain| - i, 0
    {
      match nextAction
      case NilNext =>
        return Run(Faulted(NilFunctionCall), []);
      case HandlerNext(handler) =>
        return Run(Returned(handler.handle(command)), [HandlerCalled(handler.typeName)]);
      case BehaviorNext(next) =>
        run := next.HandleCommand(command, chain, i + 1);
    }

    /**
     * `HandleQuery(ctx, query)` of this behavior, at position `i` of the chain
     * it is wired into.
     */
    method HandleQuery(query: Message, ghost chain: seq<Behavior>, ghost i: nat) returns (run: Run)
      requires QueryChain(chain) && i < |chain| && chain[i] == this
      ensures run == RunQuery(Kinds(chain[i..]), TerminalOf(chain[|chain| - 1].nextRequest), query)
      decreases |chain| - i, 1
    {
      assert Kinds(chain[i..])[0] == kind;
      assert Kinds(chain[i..])[1..] == Kinds(chain[i + 1..]);
      match kind
      case ValidationBehavior(_, validators) =>
        if |validators| > 0 {
          var index := IndexFunc(validators, ValidatorMatches(query));
          if index > -1 {
            var err := validators[index].validate(query);
            if err.Some? {
              return Run(Returned(Reply(None, err)), [Entered(TypeName(kind))]);
            }
          }
        }
        var inner := CallNextRequest(query, chain, i);
        return Enter(kind, inner);
      case EventDispatchBehavior =>
        var inner := CallNextRequest(query, chain, i);
        return Enter(kind, inner);
      case PassThroughBehavior(_) =>
        var inner := CallNextRequest(query, chain, i);
        return Enter(kind, inner);
    }

    /** `behavior.NextRequest(ctx, query)`. */
    method CallNextRequest(query: Message, ghost chain: seq<Behavior>, ghost i: nat) returns (run: Run)
      requires QueryChain(chain) && i < |chain| && chain[i] == this
      ensures run == RunQuery(Kinds(chain[i + 1..]), TerminalOf(chain[|chain| - 1].nextRequest), query)
      decreases |chain| - i, 0
    {
      match nextRequest
      case NilNext =>
        return Run(Faulted(NilFunctionCall), []);
      case HandlerNext(handler) =>
        return Run(Returned(handler.handle(query)), [HandlerCalled(handler.typeName)]);
      case BehaviorNext(next) =>
        run := next.HandleQuery(query, chain, i + 1);
    }
  }

  predicate IsPassThrough(kind: BehaviorKind)
  {
    kind.PassThroughBehavior?
  }

  /** The effects of entering each of `kinds`, in order. */
  function EnteredAll(kinds: seq<BehaviorKind>): (effects: seq<Effect>)
    ensures |effects| == |kinds| && forall i :: 0 <= i < |kinds| ==> effects[i] == Entered(TypeName(kinds[i]))
  {
    seq(|kinds|, i requires 0 <= i < |kinds| => Entered(TypeName(kinds[i])))
  }

  /** Logging and metrics behaviors (and any other pass-through) change nothing but the record of being entered. */
  lemma {:induction false} PassThroughRun(middle: seq<BehaviorKind>, rest: seq<BehaviorKind>, terminal: Option<Handler>, command: Message)
    requires forall i :: 0 <= i < |middle| ==> IsPassThrough(middle[i])
    ensures RunCommand(middle + rest, terminal, command) ==
      Run(RunCommand(rest, terminal, command).outcome, EnteredAll(middle) + RunCommand(rest, terminal, command).effects)
    decreases |middle|
  {
    if middle == [] {
      assert middle + rest == rest;
    } else {
      var inner := RunCommand(middle[1..] + rest, terminal, command);
      var last := RunCommand(rest, terminal, command);
      assert RunCommand(middle + rest, terminal, command) == Enter(middle[0], inner) by {
        assert (middle + rest)[0] == middle[0];
        assert (middle + rest)[1..] == middle[1..] + rest;
      }
      PassThroughRun(middle[1..], rest, terminal, command);
      EnteredAllUncons(middle);
      EnterPrepends(middle[0], EnteredAll(middle[1..]), inner, last);
    }
  }

  /** The effects of entering a non-empty chain: its first behavior, then the rest. */
  lemma EnteredAllUncons(kinds: seq<BehaviorKind>)
    requires kinds != []
    ensures EnteredAll(kinds) == [Entered(TypeName(kinds[0]))] + EnteredAll(kinds[1..])
  {
    var left, right := EnteredAll(kinds), [Entered(TypeName(kinds[0]))] + EnteredAll(kinds[1..]);
    forall i | 0 <= i < |kinds|
      ensures left[i] == right[i]
    {
      if i > 0 {
        assert right[i] == EnteredAll(kinds[1..])[i - 1];
      }
    }
  }

  /** Entering one more behavior around a run that already records `entered` before `last`. */
  lemma EnterPrepends(kind: BehaviorKind, entered: seq<Effect>, inner: Run, last: Run)
    requires inner == Run(last.outcome, entered + last.effects)
    ensures Enter(kind, inner) == Run(last.outcome, ([Entered(TypeName(kind))] + entered) + last.effects)
  {
    assert [Entered(TypeName(kind))] + (entered + last.effects) == ([Entered(TypeName(kind))] + entered) + last.effects;
  }

  /**
   * A command through a chain sorted as the mediator sorts it (validation first,
   * event dispatch last, pass-through behaviors between): a validation error is
   * returned as `(nil, err)` before anything else runs, so the handler is never
   * called and no domain event is committed; otherwise the handler's reply comes
   * back unchanged, after which the domain events are committed.
   */
  lemma SortedChainRun(validation: BehaviorKind, middle: seq<BehaviorKind>, handler: Handler, command: Message)
    requires validation.ValidationBehavior?
    requires forall i :: 0 <= i < |middle| ==> IsPassThrough(middle[i])
    ensures var run := RunCommand([validation] + middle + [EventDispatchBehavior], Some(handler), command);
      var err := Verdict(validation.commandValidators, command);
      (err.Some? ==> run == Run(Returned(Reply(None, err)), [Entered(ValidationBehaviorName)])) &&
      (err.None? ==> run == Run(Returned(handler.handle(command)),
        [Entered(ValidationBehaviorName)] + EnteredAll(middle) +
        [Entered(EventDispatchBehaviorName), HandlerCalled(handler.typeName), DomainEventsCommitted]))
  {
    var kinds := [validation] + middle + [EventDispatchBehavior];
    assert kinds[0] == validation;
    assert kinds[1..] == middle + [EventDispatchBehavior];
    PassThroughRun(middle, [EventDispatchBehavior], Some(handler), command);
    var last := RunCommand([EventDispatchBehavior], Some(handler), command);
    assert [EventDispatchBehavior][1..] == [];
    assert last == Run(Returned(handler.handle(command)),
      [Entered(EventDispatchBehaviorName), HandlerCalled(handler.typeName), DomainEventsCommitted]);
  }

  /**
   * A chain whose last next is nil never calls a handler, and when the nil call
   * panics through the event-dispatch behavior no domain event is committed.
   */
  lemma {:induction false} FaultCommitsNothing(kinds: seq<BehaviorKind>, command: Message)
    ensures var run := RunCommand(kinds, None, command);
      (forall i :: 0 <= i < |run.effects| ==> !run.effects[i].HandlerCalled?) &&
      (run.outcome.Faulted? ==> DomainEventsCommitted !in run.effects)
    decreases |kinds|
  {
    if kinds != [] {
      FaultCommitsNothing(kinds[1..], command);
    }
  }

  /** With a handler at the end, no chain panics: each behavior returns what its inner call gave it, or its own error. */
  lemma {:induction false} InstalledHandlerReturns(kinds: seq<BehaviorKind>, handler: Handler, message: Message)
    ensures RunCommand(kinds, Some(handler), message).outcome.Returned?
    ensures RunQuery(kinds, Some(handler), message).outcome.Returned?
    decreases |kinds|
  {
    if kinds != [] {
      InstalledHandlerReturns(kinds[1..], handler, message);
    }
  }

  /** A query chain without a validation behavior hands the handler's reply back unchanged, the handler called once, last. */
  lemma {:induction false} QueryReplyPassesThrough(kinds: seq<BehaviorKind>, handler: Handler, query: Message)
    requires forall i :: 0 <= i < |kinds| ==> !kinds[i].ValidationBehavior?
    ensures RunQuery(kinds, Some(handler), query) == Run(Returned(handler.handle(query)), EnteredAll(kinds) + [HandlerCalled(handler.typeName)])
    decreases |kinds|
  {
    if kinds != [] {
      QueryReplyPassesThrough(kinds[1..], handler, query);
      EnteredAllUncons(kinds);
      EnterPrepends(kinds[0], EnteredAll(kinds[1..]), RunQuery(kinds[1..], Some(handler), query), CallTerminal(Some(handler), query));
    }
  }

  /**
   * A query through a validation behavior followed by behaviors that do not
   * validate: a validation error is returned as `(nil, err)` before the
   * handler runs; otherwise the handler's reply comes back unchanged.
   */
  lemma ValidatedQueryRun(validation: BehaviorKind, rest: seq<BehaviorKind>, handler: Handler, query: Message)
    requires validation.ValidationBehavior?
    requires forall i :: 0 <= i < |rest| ==> !rest[i].ValidationBehavior?
    ensures var run := RunQuery([validation] + rest, Some(handler), query);
      var err := Verdict(validation.queryValidators, query);
      (err.Some? ==> run == Run(Returned(Reply(None, err)), [Entered(ValidationBehaviorName)])) &&
      (err.None? ==> run == Run(Returned(handler.handle(query)),
        [Entered(ValidationBehaviorName)] + EnteredAll(rest) + [HandlerCalled(handler.typeName)]))
  {
    var kinds := [validation] + rest;
    assert kinds[0] == validation;
    assert kinds[1..] == rest;
    QueryReplyPassesThrough(rest, handler, query);
  }
}
