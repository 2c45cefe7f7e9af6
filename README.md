# golang-cqrs in Dafny

A model of the in-process CQRS dispatch core of `github.com/mitz-it/golang-cqrs`. It covers the two generations the repository ships, and it proves what each promises.

**First generation (package `cqrs`).** Package-level registries:
- command and query handlers, keyed by the request's type;
- command and query behaviors, keyed by an integer order;
- event subscribers, keyed by the event's type.

`Send` and `Request` look the handler up, fold the behaviors into a pipeline around it, and cast the answer to the response type. `PublishEvent` calls every subscriber and combines their errors. `PublishEventAsync` puts a delivery on a channel that listener goroutines drain.

**Second generation (the `mediator` directory, package `cqrs`).** A `Mediator` value built by `NewMediator`:
- it finds a handler by substring match on `%T` type names;
- it reorders the command behaviors in place so that the validation behavior comes first and the event-dispatch behavior last;
- it wires every behavior to the next through its `NextAction`/`NextRequest` field.

The validation behavior looks up a validator by the last dot-separated segment of the type names. It stops the chain on a validation error.

Files and modules:

| file | module | models |
|---|---|---|
| wrappers.dfy | Wrappers | `Option` |
| cqrs_values.dfy | CqrsValues | type keys, values, zero values, the package's errors, handlers |
| cqrs_behaviors.dfy | CqrsBehaviors | behaviors.go: the two behavior maps (class `BehaviorRegistry`), `sortBehaviors` |
| cqrs_pipeline.dfy | CqrsPipeline | the fold, the invocation and the response cast shared by cqrs/commands.go and queries.go (`Dispatch`) |
| cqrs_commands.dfy | CqrsCommands | cqrs/commands.go (class `CommandRegistry`) |
| cqrs_queries.dfy | CqrsQueries | queries.go (class `QueryRegistry`) |
| cqrs_events.dfy | CqrsEvents | events.go (class `EventBus`, the listener loop as the function `Drain`) |
| mediator_names.dfy | MediatorNames | `strings.Contains`, `strings.Split`, `slices.IndexFunc` |
| mediator_behaviors.dfy | MediatorBehaviors | behaviors/validation-behavior.go and the chain of behaviors (class `Behavior`) |
| mediator.dfy | Mediator | mediator/mediator.go (class `Mediator`, `sortCommandBehaviors`, the configure functions, `NewMediator`) |

Go's package-level variables become the fields of one class per file. The mutating functions become methods with `modifies` clauses. Closures built by the fold are data (`NextFunc`) that `Invoke` evaluates. Each method is proved against a specification function (`SortedBehaviors`, `Dispatch`, `Publish`, `Drain`, `AnchorSort`, `RunCommand`, `RunQuery`, `Answer`). The lemmas state what the source promises about those functions. A panic is modelled as an outcome (`Faulted`, `SortPanicked`), never as a precondition.

Where the code does something other than what its names and comments suggest, the model follows the code:
- **Command pipeline order.** `sortBehaviors` lists the keys in descending order, and the fold wraps each behavior around the pipeline built so far. So the behavior with the LOWEST key is outermost and runs first (`PipelineLowestKeyOutermost`, `PipelineOrder`), not the highest.
- **Wrong response type.** A pipeline answer of the wrong type becomes the zero value of the response type, and only the pipeline's own error is returned. No type-mismatch error is added (`Downcast`).
- **Unsubscribed async delivery.** The listener loop `return`s on a delivery whose type has no subscriber. That listener stops and nothing restarts it (`UnsubscribedStopsListener`); the delivery is not merely skipped.
- **Missing anchors.** `sortCommandBehaviors` does not skip a missing anchor. When no name contains the anchor's name, `IndexFunc` gives -1, and indexing with it panics (`AnchorSortDefinedIff`).
- **Middle behaviors.** The behaviors between the anchors do not keep their relative order, since the anchors are moved by swaps (`AnchorSortReordersMiddle`).
- **Stale last name.** The event-dispatch step compares the name of the behavior that was last BEFORE the validation swap (`EventDispatchPosition`).
- **Anchor type names.** Inside `sortCommandBehaviors` the parameter `behaviors` shadows the imported package of the same name, so `&behaviors.ValidationBehavior{}` cannot refer to the type as written, and neither can the closures' parameter type `behaviors.IBehavior`: the whole function does not compile as written. The model takes the evident intent: the anchor names are `*behaviors.ValidationBehavior` and `*behaviors.EventDispatchBehavior`, the `%T` names of the behaviors package's types.

## Model

| member | source | states |
|---|---|---|
| CqrsBehaviors.BehaviorRegistry.constructor | behaviors.go:19-22 | both behavior maps start empty |
| CqrsBehaviors.BehaviorRegistry.RegisterCommandBehavior | behaviors.go:24-36 | an order already taken gives the "position taken" error and leaves both maps unchanged; otherwise the behavior is stored at exactly that order, nil is returned and the query map is untouched |
| CqrsBehaviors.BehaviorRegistry.RegisterQueryBehavior | behaviors.go:38-49 | the same contract on the query map; the command map is never touched |
| CqrsBehaviors.HasMaximum | behaviors.go:58 | a non-empty key set has a largest key |
| CqrsBehaviors.DescendingKeys | behaviors.go:54-58 | the key list is strictly descending and holds exactly the map's keys |
| CqrsBehaviors.HeadIsLargest | behaviors.go:58 | the head of a strictly descending list is its largest element |
| CqrsBehaviors.TailLists | behaviors.go:58 | the tail of a strictly descending listing of a key set lists that set minus the head |
| CqrsBehaviors.DescendingKeysUnique | behaviors.go:54-58 | there is only one strictly descending list of a key set, so the result does not depend on the map's iteration order |
| CqrsBehaviors.SortedBehaviorsShape | behaviors.go:51-67 | one element per key, element i is the behavior at the i-th largest key, and every stored behavior appears |
| CqrsBehaviors.SortedBehaviorsExample | behaviors.go:51-67 | keys {2, 0, 1} give [b2, b1, b0] |
| CqrsBehaviors.SortDescending | behaviors.go:58 | sorts the key array in place into descending order, as a permutation of its contents |
| CqrsBehaviors.InsertDescending | behaviors.go:58 | one step of the sort: the descending prefix grows by one element, the array stays a permutation of what it held |
| CqrsBehaviors.CollectKeys | behaviors.go:52-56 | the collected keys are exactly the map's keys, each once |
| CqrsBehaviors.SortBehaviors | behaviors.go:51-67 | the result is the behaviors by descending key (`SortedBehaviors`) |
| CqrsBehaviors.ListByKeys | behaviors.go:60-64 | the appending loop lists the behavior at each key, in the order of the keys |
| CqrsBehaviors.SortedDistinctKeys | behaviors.go:58 | a descending permutation of distinct keys is strictly descending and has the same members |
| CqrsBehaviors.DistinctCount | behaviors.go:52-56 | a list without repetition holds each key at most once as a multiset |
| CqrsBehaviors.HandlerReply | cqrs/commands.go:61-63 | the handler call answers a value of the handler's response type and the handler's error |
| CqrsPipeline.AggregateReverses | cqrs/commands.go:65-70 | folding a list around a pipeline wraps the list's LAST element outermost: the fold equals the nesting of the reversed list |
| CqrsPipeline.AscendingKeys | behaviors.go:58 | strictly ascending and exactly the map's keys |
| CqrsPipeline.ReverseDescending | behaviors.go:58 | reversing a strictly descending list gives a strictly ascending one with the same members |
| CqrsPipeline.AscendingBehaviors | behaviors.go:58-64 | element i is the behavior at the i-th smallest key, one per key |
| CqrsPipeline.ReverseLookup | behaviors.go:58-64 | looking up the reversed keys gives the reversed behavior list |
| CqrsPipeline.ReverseSortedIsAscending | behaviors.go:58 | the descending behavior list reversed is the list by ascending key |
| CqrsPipeline.PipelineLowestKeyOutermost | cqrs/commands.go:59-70 | the folded pipeline nests the behaviors lowest key outermost, the handler innermost |
| CqrsPipeline.NestTrace | cqrs/commands.go:65-74 | when no behavior answers on its own, every behavior is entered outermost first and then the handler is invoked |
| CqrsPipeline.PipelineOrder | cqrs/commands.go:59-74 | when no behavior answers on its own, the behavior at key k is entered before the one at k' whenever k < k', and the handler last |
| CqrsPipeline.NestShortCircuit | cqrs/commands.go:65-74 | the first behavior that answers without calling next ends the run: nothing after it and not the handler is entered |
| CqrsPipeline.PassThroughKeepsReply | cqrs/commands.go:61-74 | behaviors that only call next return the handler's reply unchanged |
| CqrsPipeline.Downcast | cqrs/commands.go:76-82 | the pipeline's error is always kept; a response of the right type is returned as is, anything else becomes the zero value |
| CqrsPipeline.PassThroughPipelineIsDirect | cqrs/commands.go:55-82 | with pass-through behaviors the pipeline answers exactly as the handler called directly |
| CqrsPipeline.Dispatch | cqrs/commands.go:38-83 | no handler: zero value and "no handler registered"; handler of the wrong type: zero value and "not assignable"; no behaviors: the handler's own answer |
| CqrsPipeline.PassThroughDispatchIsDirect | cqrs/commands.go:55-82 | pass-through behaviors make Send answer as it does with no behaviors |
| CqrsPipeline.LowestBehaviorAnswers | cqrs/commands.go:59-80 | a lowest-key behavior that answers without calling next is all that runs, and its answer is cast to the response type |
| CqrsPipeline.LowestKeyFirst | behaviors.go:58 | the behavior at the smallest key heads the ascending list |
| CqrsCommands.CommandRegistry.constructor | cqrs/commands.go:16-20 | the handler map starts empty |
| CqrsCommands.CommandRegistry.RegisterCommandHandler | cqrs/commands.go:22-36 | a second handler for a type gives "already registered" and keeps the first; otherwise the handler is bound to its type |
| CqrsCommands.CommandRegistry.Send | cqrs/commands.go:38-83 | the lookup, cast check, fast path, fold and response cast give `Dispatch` over the current registries |
| CqrsCommands.RegisteredHandlerAnswers | cqrs/commands.go:22-57 | register then send: the new handler answers the command directly through pass-through behaviors |
| CqrsQueries.QueryRegistry.constructor | queries.go:16-20 | the handler map starts empty |
| CqrsQueries.QueryRegistry.RegisterQueryHandler | queries.go:22-36 | a second handler for a type gives "already registered" and keeps the first; otherwise the handler is bound to its type |
| CqrsQueries.QueryRegistry.Request | queries.go:38-83 | `Dispatch` over the query registries, as Send over the command ones |
| CqrsQueries.RegisteredHandlerAnswers | queries.go:22-57 | register then request: the new handler answers the query directly through pass-through behaviors |
| CqrsEvents.FirstPanic | events.go:70-95 | the index of the first subscriber that panics, or the list's length; none before it panics |
| CqrsEvents.Deliver | events.go:140-142 | the subscribers are called in order, up to and including the first that panics |
| CqrsEvents.Drain | events.go:124-144 | the listeners stop only when the channel is empty or none is left, and their number never grows |
| CqrsEvents.EventBus.constructor | events.go:25-28 | no subscribers, an empty channel, no listener |
| CqrsEvents.EventBus.SubscribersOf | events.go:33 | the subscriber list of a type, empty when the type has none |
| CqrsEvents.EventBus.RegisterEventSubscriber | events.go:30-45 | appends the subscriber to the end of its type's list, keeps the earlier entries, never deduplicates, returns nil |
| CqrsEvents.EventBus.RegisterEventSubscribers | events.go:47-57 | an empty argument list gives an error and changes nothing; otherwise appends all subscribers in argument order |
| CqrsEvents.EventBus.PublishEvent | events.go:59-98 | loops over the subscribers collecting errors and yields `Publish`: an error for an unsubscribed type, else the combined errors |
| CqrsEvents.EventBus.PublishEventAsync | events.go:100-112 | appends exactly one delivery to the channel's tail, returns nil, looks nothing up |
| CqrsEvents.EventBus.Listen | events.go:114-116 | starts one more listener |
| CqrsEvents.EventBus.Work | events.go:118-144 | the listeners' deliveries, channel and count end as `Drain` says |
| CqrsEvents.Receive | events.go:135-142 | the calls of one delivery are `Deliver` |
| CqrsEvents.ErrorsAreSubscriberErrors | events.go:68-97 | an error is in the combined error exactly when some subscriber returned it |
| CqrsEvents.NoErrorsIff | events.go:68-97 | the combined error is empty exactly when no subscriber returned an error |
| CqrsEvents.PublishSucceedsIff | events.go:59-98 | PublishEvent returns nil exactly when the type has subscribers and every one returned nil |
| CqrsEvents.SubscriberCalledLast | events.go:30-45 | subscribe then publish: the new subscriber is called after the earlier ones, its error last |
| CqrsEvents.DrainAppend | events.go:124-144 | FIFO: while a listener is left, draining two batches is draining the first, then the second |
| CqrsEvents.DrainAppendDelivered | events.go:135-142 | the FIFO property when the first delivery has subscribers: its calls come before everything drained after it |
| CqrsEvents.DrainAppendDropped | events.go:129-133 | the FIFO property when the first delivery has no subscriber: it only costs a listener |
| CqrsEvents.DrainDelivered | events.go:124-142 | a delivery with subscribers gives its calls, then the rest of the channel drained by the same listeners |
| CqrsEvents.DrainLeavesSuffix | events.go:124-144 | what is left in the channel is a suffix of it |
| CqrsEvents.UnsubscribedStopsListener | events.go:129-133 | a delivery with no subscriber stops the only listener and leaves the rest of the channel undelivered |
| CqrsEvents.PanicIsolated | events.go:118-122 | a panicking subscriber skips the rest of its delivery, and the restarted listener serves the next delivery |
| MediatorNames.ContainsIffOccurs | mediator/mediator.go:42 | `Contains` holds exactly when the pattern occurs at some offset |
| MediatorNames.ContainsShorter | mediator/mediator.go:42 | a contained pattern is no longer than the text |
| MediatorNames.Split | behaviors/validation-behavior.go:43-46 | at least one piece, none holding the separator |
| MediatorNames.JoinSplit | behaviors/validation-behavior.go:43-46 | joining the pieces with the separator gives the text back |
| MediatorNames.LastPieceIsSuffix | behaviors/validation-behavior.go:43-46 | the last piece is the whole text, or a shorter suffix preceded by the separator |
| MediatorNames.SplitLastStep | behaviors/validation-behavior.go:43-46 | one more leading character: a separator adds a piece, any other character joins the first piece, and the last piece changes only when it is the only one |
| MediatorNames.LastSegmentShape | behaviors/validation-behavior.go:43-46 | the last segment holds no '.', and is the whole name or follows its last '.' |
| MediatorNames.IndexFunc | mediator/mediator.go:39-43 | the first index that satisfies the test, or -1 exactly when none does |
| MediatorBehaviors.Verdict | behaviors/validation-behavior.go:38-56 | no validators, or none whose name matches: no error; otherwise the error of the FIRST matching validator, and only that |
| MediatorBehaviors.Behavior.constructor | behaviors/validation-behavior.go:85-90 | a new behavior has nil next fields |
| MediatorBehaviors.Behavior.SetNextAction | behaviors/validation-behavior.go:29-31 | changes NextAction only |
| MediatorBehaviors.Behavior.SetNextRequest | behaviors/validation-behavior.go:33-35 | changes NextRequest only |
| MediatorBehaviors.Behavior.HandleCommand | behaviors/validation-behavior.go:37-59 | inside a wired chain, the run is `RunCommand` of the chain from this behavior: a validation error returns (nil, err) without calling next |
| MediatorBehaviors.Behavior.CallNextAction | behaviors/validation-behavior.go:39 | calling NextAction runs the rest of the chain, or the installed handler, or panics on nil |
| MediatorBehaviors.Behavior.HandleQuery | behaviors/validation-behavior.go:61-83 | the same with the query validators and NextRequest (`RunQuery`) |
| MediatorBehaviors.Behavior.CallNextRequest | behaviors/validation-behavior.go:63 | calling NextRequest runs the rest of the query chain |
| MediatorBehaviors.PassThroughRun | behaviors/validation-behavior.go:58 | pass-through behaviors keep the inner outcome and only record being entered |
| MediatorBehaviors.SortedChainRun | behaviors/validation-behavior.go:50-58 | validation first, event dispatch last: a validation error returns (nil, err) before the handler and without committing events; otherwise the handler's reply, then the commit |
| MediatorBehaviors.FaultCommitsNothing | behaviors/validation-behavior.go:39 | with a nil last next, no handler is called, and a panic commits no domain event |
| MediatorBehaviors.InstalledHandlerReturns | behaviors/validation-behavior.go:37-83 | with a handler installed at the end, no chain panics |
| MediatorBehaviors.QueryReplyPassesThrough | behaviors/validation-behavior.go:82 | a query chain with no validation returns the handler's reply unchanged, the handler called last |
| MediatorBehaviors.ValidatedQueryRun | behaviors/validation-behavior.go:61-83 | a query validation error returns (nil, err) before the handler; otherwise the handler's reply |
| Mediator.Swap | mediator/mediator.go:98-100 | the two positions are exchanged, the rest kept, a permutation |
| Mediator.SortCommandBehaviors | mediator/mediator.go:86-116 | the in-place swaps leave in the array what `AnchorSort` says, or the panic it says |
| Mediator.MoveValidationFirst | mediator/mediator.go:92-101 | with no validation behavior found, the -1 index panics and nothing moves; otherwise the array becomes `ValidationFirst` of what it held |
| Mediator.MoveEventDispatchLast | mediator/mediator.go:103-113 | a last name equal to the event-dispatch name changes nothing; otherwise no match panics with nothing moved, and a match is swapped with the last element |
| Mediator.EventDispatchFoundIn | mediator/mediator.go:103-107 | the second block searches the list as the first block left it, and decides on the name read before the first block |
| Mediator.AnchorSortSteps | mediator/mediator.go:86-116 | the four outcomes: no validation behavior panics, no event-dispatch behavior panics after the first swap, else one or both swaps |
| Mediator.Exchange | mediator/mediator.go:98-100 | the array after the two assignments is the swap of the array before |
| Mediator.NotAtOffset | mediator/mediator.go:89-90 | the validation name does not start at offsets 1-3 of the event-dispatch name |
| Mediator.NotContainedFrom | mediator/mediator.go:89-90 | the validation name does not occur in the event-dispatch name from offset k on |
| Mediator.ValidationNameNotInEventDispatchName | mediator/mediator.go:89-90 | the event-dispatch name does not contain the validation name |
| Mediator.EventDispatchNameNotInValidationName | mediator/mediator.go:89-90 | the validation name does not contain the event-dispatch name |
| Mediator.AnchorNames | mediator/mediator.go:89-106 | each anchor name contains itself and not the other |
| Mediator.AnchorSortPlaces | mediator/mediator.go:86-116 | without a panic: a permutation, validation at 0, event dispatch last, every other index except the two taken from unchanged |
| Mediator.PermutationKeepsWitness | mediator/mediator.go:104-107 | a behavior that passes a test still passes it in any permutation |
| Mediator.AnchorSortDefinedIff | mediator/mediator.go:86-111 | no panic exactly when the list is non-empty and each anchor is in place or present |
| Mediator.ValidationAnchor | mediator/mediator.go:93-96 | the validation behavior's name contains the validation name and not the event-dispatch one |
| Mediator.EventDispatchAnchor | mediator/mediator.go:104-107 | the event-dispatch behavior's name contains the event-dispatch name and not the validation one |
| Mediator.AnchorSortExample | mediator/mediator.go:86-116 | [logging, event dispatch, validation] becomes [validation, logging, event dispatch] |
| Mediator.ValidationTakenFrom | mediator/mediator.go:92-101 | the validation behavior is taken from the first matching position and swapped to the front |
| Mediator.EventDispatchTakenFrom | mediator/mediator.go:103-113 | the event-dispatch behavior is taken from the first matching position of the reordered list and swapped to the back |
| Mediator.EventDispatchKeptLast | mediator/mediator.go:103 | when the last behavior before the first block is the event-dispatch behavior, only the first block acts |
| Mediator.AnchorsBothSwapped | mediator/mediator.go:86-116 | a three-element list with validation last and event dispatch in the middle gets both swaps |
| Mediator.MiddleSwapped | mediator/mediator.go:92-101 | a four-element list with validation third and event dispatch last gets only the first swap |
| Mediator.AnchorSortReordersMiddle | mediator/mediator.go:92-101 | [logging, metrics, validation, event dispatch] becomes [validation, metrics, logging, event dispatch]: the middle order is lost |
| Mediator.DistinctSwap | mediator/mediator.go:98-100 | a swap keeps the behaviors distinct |
| Mediator.ValidationFirstPermutes | mediator/mediator.go:92-101 | the first block keeps the behaviors, each once when they were |
| Mediator.AnchoredList | mediator/mediator.go:103-115 | once the validation behavior is found, the slice left is the first block's, with the second swap exactly when it happens |
| Mediator.AnchorSortPermutes | mediator/mediator.go:86-116 | sorted or panicked, the slice holds the same behaviors, distinct when they were |
| Mediator.SortedKeepsBehaviors | mediator/mediator.go:86-116 | the sorted slice holds only behaviors of the input, distinct when they were |
| Mediator.ConfigureCommandBehaviors | mediator/mediator.go:128-140 | empty list: nothing; else sort in place; on a panic nothing is wired; otherwise the last NextAction is nil and, for distinct behaviors, each NextAction is the next behavior's; NextRequest never changes |
| Mediator.WireActions | mediator/mediator.go:133-139 | the wiring loop over the sorted slice |
| Mediator.ConfigureQueryBehaviors | mediator/mediator.go:118-126 | in the given order, the last NextRequest is nil and, for distinct behaviors, each NextRequest is the next behavior's; NextAction never changes |
| Mediator.Mediator.constructor | mediator/mediator.go:147-152 | keeps the four lists |
| Mediator.Mediator.Send | mediator/mediator.go:38-60 | the run is `Answer`: no matching handler panics with no NextAction changed; no behaviors calls the handler directly; otherwise the last NextAction becomes the first matching handler and the chain runs from behavior 0; no NextRequest changes and the chains stay wired |
| Mediator.Mediator.Request | mediator/mediator.go:62-84 | the run is `Answer` over the query handlers and behaviors: no matching handler panics with no NextRequest changed; otherwise the last NextRequest becomes the first matching query handler; no NextAction changes and the chains stay wired |
| Mediator.Mediator.InstallCommandHandler | mediator/mediator.go:57 | only the last command behavior's NextAction changes, to the handler; the chain stays wired and the query behaviors are untouched |
| Mediator.Mediator.InstallQueryHandler | mediator/mediator.go:81 | only the last query behavior's NextRequest changes, to the handler; the chain stays wired and NextAction is untouched |
| Mediator.NewMediator | mediator/mediator.go:142-153 | configures the command behaviors (the sort's panic propagates), then the query behaviors, and keeps the four lists; the last NextAction and the last NextRequest are nil; distinct behaviors give a wired mediator |
| Mediator.Assemble | mediator/mediator.go:145-152 | configuring the query behaviors leaves every NextAction as it was and the last NextRequest nil; the mediator keeps the four lists and is wired when the command chain was and the query behaviors are distinct |
| Mediator.PanicsIffNoHandler | mediator/mediator.go:39-49 | Send and Request panic exactly when no handler's type name contains the message's, and then run nothing |
| Mediator.FirstMatchingHandlerAnswers | mediator/mediator.go:39-55 | without behaviors, the first matching handler answers, called once |
| Mediator.SendThroughSortedChain | mediator/mediator.go:51-59 | through a sorted chain, a validation error comes back with nothing committed, else the first matching handler's reply with the commit last |
| Mediator.RequestThroughValidation | mediator/mediator.go:75-83 | through a validation behavior, a validation error comes back before the handler, else the first matching handler's reply |

## Left out

- `context.Context` is passed through and never inspected, so it is not modelled.
- Reflection is not modelled. `reflect.TypeOf` and `%T` become a type key or a type-name string carried by each value. The typed `Handle` call and the reflective `MethodByName("Handle").Call` path of PublishEvent are both "call the subscriber".
- The cast of a stored handler to `ICommandHandler[TCommand, TResponse]` is modelled as a comparison of the handler's request and response types (`Assignable`).
- The goroutines and the blocking of the unbuffered channel are not modelled. A delivery waits in a list, and the listeners drain it one delivery at a time (`Work`, `Drain`). Interleavings between publishers and listeners are not captured.
- multierr formatting is not modelled: the combined error is the list of the subscribers' errors, in order.
- A gen-1 behavior is modelled as an optional answer given before calling next, plus a function applied to next's answer. A behavior that calls next more than once, or that depends on the context, is not captured.
- Registering an event subscriber for an interface type (a nil `reflect.Type` key) is not distinguished from any other key.
- CqrsCommands.CommandRegistry.RegisterCommandHandler, CqrsQueries.QueryRegistry.RegisterQueryHandler: a request type that is an interface type is not modelled. In Go, `reflect.TypeOf` of its zero value is nil, so all interface-typed registrations share the nil key. A second such registration finds that key and then panics calling `String()` on the nil type, instead of returning "already registered". The model gives every type its own key, so there is no such panic.
- `sort.Sort(sort.Reverse(...))` is modelled by an insertion sort with the same result (`SortDescending`). The library's algorithm is not modelled.
- The `Mediator` keeps the sorted command behaviors as a sequence taken after `NewMediator` sorted them. The sharing of the slice's backing array with the caller's `MediatorParams` is not modelled.
- The logging and metrics behaviors (timing, logger output) are modelled only as pass-through behaviors. The event-dispatch behavior is modelled as "commit the domain events after the inner call returned"; the dispatcher it calls is not part of this model.
- The validators' own rules (`validators/common.go`, ozzo-validation) are opaque functions from a message to an optional error.
- Dependency injection through `dig` (cqrs_dig/di.go) is not part of this model. It only calls the registration functions.
- ConfigureCommandBehaviors, ConfigureQueryBehaviors, NewMediator, Assemble: the full chain is stated only for lists without repeated behavior objects. With a repeated object, the model states only that the last behavior's next is nil, because later writes overwrite earlier ones.
- Mediator.Send, Mediator.Request: they require a wired chain (`Valid`), which a list that repeats a behavior object does not give. The source still runs such a mediator: each repeated object jumps to the behavior after its last position, skipping the ones in between. The model does not capture those runs.
- Mediator.Send, Mediator.Request: concurrent calls are not modelled. The source writes the shared last behavior's NextAction (or NextRequest) and then runs the chain without a lock, so two concurrent calls for different messages can run each other's handler. The model treats each call as one atomic step.
- Downcast, HandlerReply: the response type parameter is taken to be a concrete type, so a value is accepted only when its type equals it. Go's assertion to an interface type, which keeps any value that implements the interface (`any` keeps every value), is not modelled.
- The package name declared in behaviors/validation-behavior.go is `cqrs_behaviors`, while the mediator imports the behaviors package by the name `behaviors`. The model uses `*behaviors.ValidationBehavior` as the type name, as the mediator's anchors require.
