/**
 * behaviors.go: the behavior contract (IBehavior, NextFunc), the two order-keyed
 * behavior registries, and sortBehaviors, which lists a registry by descending key.
 */
module CqrsBehaviors {
  import opened Wrappers
  import opened CqrsValues

  /**
   * An IBehavior. Its Handle(ctx, request, next) either answers `before(request)`
   * without calling next, or calls next once and answers `after(request, reply of next)`.
   * `name` is the behavior's type name, kept so that traces can be read.
   */
  datatype Behavior = Behavior(
    name: string,
    before: Value -> Option<Reply>,
    after: (Value, Reply) -> Reply)

  /** A behavior that neither short-circuits nor changes what next returned (Behavior1 in the tests). */
  ghost predicate PassThrough(b: Behavior)
  {
    forall request: Value :: b.before(request) == None && forall r: Reply {:trigger b.after(request, r)} :: b.after(request, r) == r
  }

  /**
   * A NextFunc closure, as data: either the terminal handler call or
   * `func() { return b.Handle(ctx, request, next) }`.
   */
  datatype NextFunc = HandlerCall | BehaviorCall(behavior: Behavior, next: NextFunc)

  /** One event of a pipeline run: a behavior's Handle was entered, or the handler ran. */
  datatype Step = Entered(behavior: Behavior) | HandlerInvoked

  datatype Run = Run(reply: Reply, trace: seq<Step>)

  /** The reply of the terminal call `handler.Handle(ctx, request)`, boxed into an interface. */
  function HandlerReply(handler: Handler, request: Value): (r: Reply)
    ensures r.response.Some? && r.response.value.ty == handler.responseType
    ensures r.err == handler.handle(request).err
  {
    var result := handler.handle(request);
    Reply(Some(Value(handler.responseType, result.payload)), result.err)
  }

  /** Calling a NextFunc closure: what it returns and the calls it makes, outermost first. */
  function Invoke(f: NextFunc, request: Value, handler: Handler): Run
  {
    match f
    case HandlerCall => Run(HandlerReply(handler, request), [HandlerInvoked])
    case BehaviorCall(b, next) =>
      match b.before(request)
      case Some(early) => Run(early, [Entered(b)])
      case None =>
        var inner := Invoke(next, request, handler);
        Run(b.after(request, inner.reply), [Entered(b)] + inner.trace)
  }

  /** The package-level `commandBehaviors` and `queryBehaviors` maps. */
  class BehaviorRegistry {
    var commandBehaviors: map<int, Behavior>
    var queryBehaviors: map<int, Behavior>

    /** init(): both registries start empty. */
    constructor ()
      ensures commandBehaviors == map[] && queryBehaviors == map[]
    {
      commandBehaviors := map[];
      queryBehaviors := map[];
    }

    /** Binds `behavior` at `order` in the command pipeline unless the position is taken. */
    method RegisterCommandBehavior(order: int, behavior: Behavior) returns (err: Option<Error>)
      modifies `commandBehaviors
      ensures order in old(commandBehaviors) ==>
        err == Some(PositionTaken(CommandRequest, order)) && commandBehaviors == old(commandBehaviors)
      ensures order !in old(commandBehaviors) ==>
        err == None && commandBehaviors == old(commandBehaviors)[order := behavior]
      ensures queryBehaviors == old(queryBehaviors)
    {
      if order in commandBehaviors {
        return Some(PositionTaken(CommandRequest, order));
      }
      commandBehaviors := commandBehaviors[order := behavior];
      return None;
    }

    /** Binds `behavior` at `order` in the query pipeline unless the position is taken. */
    method RegisterQueryBehavior(order: int, behavior: Behavior) returns (err: Option<Error>)
      modifies `queryBehaviors
      ensures order in old(queryBehaviors) ==>
        err == Some(PositionTaken(QueryRequest, order)) && queryBehaviors == old(queryBehaviors)
      ensures order !in old(queryBehaviors) ==>
        err == None && queryBehaviors == old(queryBehaviors)[order := behavior]
      ensures commandBehaviors == old(commandBehaviors)
    {
      if order in queryBehaviors {
        return Some(PositionTaken(QueryRequest, order));
      }
      queryBehaviors := queryBehaviors[order := behavior];
      return None;
    }
  }

  ghost predicate StrictlyDescending(s: seq<int>)
  {
    forall i, j :: 0 <= i < j < |s| ==> s[i] > s[j]
  }

  ghost predicate Descending(s: seq<int>)
  {
    forall i, j :: 0 <= i < j < |s| ==> s[i] >= s[j]
  }

  lemma {:induction false} HasMaximum(keys: set<int>)
    requires exists k :: k in keys
    ensures exists m :: m in keys && forall k :: k in keys ==> k <= m
    decreases keys
  {
    var x :| x in keys;
    var others := keys - {x};
    if y :| y in others {
      HasMaximum(others);
      var m :| m in others && forall k :: k in others ==> k <= m;
      var top := if x <= m then m else x;
      forall k | k in keys ensures k <= top {
        if k != x { assert k in others; }
      }
      assert top in keys;
    } else {
      assert forall k :: k in keys ==> k == x || k in others;
      assert forall k :: k in keys ==> k <= x;
    }
  }

  /** The keys of a finite set of orders, largest first: the order sortBehaviors must produce. */
  ghost function DescendingKeys(keys: set<int>): (r: seq<int>)
    ensures StrictlyDescending(r)
    ensures forall k :: k in r <==> k in keys
    decreases keys
  {
    if exists k :: k in keys then
      HasMaximum(keys);
      var m :| m in keys && forall k :: k in keys ==> k <= m;
      [m] + DescendingKeys(keys - {m})
    else []
  }

  /** The first element of a strictly descending sequence is its largest. */
  lemma HeadIsLargest(s: seq<int>, k: int)
    requires StrictlyDescending(s) && k in s
    ensures k <= s[0]
  {
  }

  /** Dropping the head of a strictly descending listing of `keys` lists `keys` without it. */
  lemma TailLists(s: seq<int>, keys: set<int>)
    requires StrictlyDescending(s) && s != []
    requires forall k :: k in s <==> k in keys
    ensures forall k :: k in s[1..] <==> k in keys - {s[0]}
  {
    forall k ensures k in s[1..] <==> k in keys - {s[0]} {
      if k in s[1..] {
        var j :| 1 <= j < |s| && s[j] == k;
        assert s[0] > s[j];
      }
      if k in keys - {s[0]} {
        var j :| 0 <= j < |s| && s[j] == k;
        assert j != 0;
      }
    }
  }

  /**
   * Determinism: a strictly descending listing of a key set is unique, so any
   * such listing (whatever order the map was iterated in) equals DescendingKeys.
   */
  lemma {:induction false} DescendingKeysUnique(s: seq<int>, keys: set<int>)
    requires StrictlyDescending(s)
    requires forall k :: k in s <==> k in keys
    ensures s == DescendingKeys(keys)
    decreases |s|
  {
    var r := DescendingKeys(keys);
    if s == [] {
      assert forall k :: k !in keys;
    } else {
      assert s[0] in r;
      assert r != [];
      assert r[0] in s;
      HeadIsLargest(s, r[0]);
      HeadIsLargest(r, s[0]);
      TailLists(s, keys);
      TailLists(r, keys);
      DescendingKeysUnique(s[1..], keys - {s[0]});
      DescendingKeysUnique(r[1..], keys - {s[0]});
      assert s == [s[0]] + s[1..] && r == [r[0]] + r[1..];
    }
  }

  /** The behaviors of a registry listed by descending key: what sortBehaviors returns. */
  ghost function SortedBehaviors(behaviors: map<int, Behavior>): (r: seq<Behavior>)
  {
    var keys := DescendingKeys(behaviors.Keys);
    seq(|keys|, i requires 0 <= i < |keys| => behaviors[keys[i]])
  }

  /**
   * sortBehaviors lists every registered behavior exactly once: position i holds
   * the behavior at the i-th largest key, and every key has a position.
   */
  lemma SortedBehaviorsShape(behaviors: map<int, Behavior>)
    ensures |SortedBehaviors(behaviors)| == |DescendingKeys(behaviors.Keys)|
    ensures forall i :: 0 <= i < |SortedBehaviors(behaviors)| ==>
      DescendingKeys(behaviors.Keys)[i] in behaviors &&
      SortedBehaviors(behaviors)[i] == behaviors[DescendingKeys(behaviors.Keys)[i]]
    ensures forall k :: k in behaviors ==>
      exists i :: 0 <= i < |SortedBehaviors(behaviors)| && DescendingKeys(behaviors.Keys)[i] == k
  {
    var keys := DescendingKeys(behaviors.Keys);
    forall k | k in behaviors
      ensures exists i :: 0 <= i < |keys| && keys[i] == k
    {
      assert k in keys;
    }
  }

  /** The example of behaviors_test.go's sort test: keys {2, 0, 1} are listed as [b2, b1, b0]. */
  lemma SortedBehaviorsExample(b0: Behavior, b1: Behavior, b2: Behavior)
    ensures SortedBehaviors(map[2 := b2, 0 := b0, 1 := b1]) == [b2, b1, b0]
  {
    var m := map[2 := b2, 0 := b0, 1 := b1];
    assert m.Keys == {0, 1, 2};
    DescendingKeysUnique([2, 1, 0], m.Keys);
  }

  /**
   * sort.Sort(sort.Reverse(sort.IntSlice(keys))): sorts the slice in place,
   * largest first.
   */
  method SortDescending(a: array<int>)
    modifies a
    ensures Descending(a[..])
    ensures multiset(a[..]) == multiset(old(a[..]))
  {
    if a.Length < 2 {
      return;
    }
    for i := 1 to a.Length
      invariant Descending(a[..i])
      invariant multiset(a[..]) == multiset(old(a[..]))
    {
      InsertDescending(a, i);
    }
  }

  /** One step of the insertion sort: moves a[i] left past the smaller keys, so that a[..i+1] is descending. */
  method InsertDescending(a: array<int>, i: nat)
    requires 0 < i < a.Length && Descending(a[..i])
    modifies a
    ensures Descending(a[..i + 1])
    ensures multiset(a[..]) == multiset(old(a[..]))
  {
    var j := i;
    while j > 0 && a[j - 1] < a[j]
      invariant 0 <= j <= i
      invariant forall p, q :: 0 <= p < q <= i && p != j && q != j ==> a[p] >= a[q]
      invariant forall q :: j < q <= i ==> a[j] > a[q]
      invariant multiset(a[..]) == multiset(old(a[..]))
    {
      a[j - 1], a[j] := a[j], a[j - 1];
      j := j - 1;
    }
  }

  /** `for key := range behaviors { keys = append(keys, key) }`, in whatever order the map yields. */
  method CollectKeys(behaviors: map<int, Behavior>) returns (keys: seq<int>)
    ensures forall k :: k in keys <==> k in behaviors
    ensures forall i, j :: 0 <= i < j < |keys| ==> keys[i] != keys[j]
  {
    keys := [];
    var remaining := behaviors.Keys;
    while true
      invariant forall k :: k in keys ==> k in behaviors && k !in remaining
      invariant forall k :: k in behaviors ==> k in keys || k in remaining
      invariant forall k :: k in remaining ==> k in behaviors
      invariant forall i, j :: 0 <= i < j < |keys| ==> keys[i] != keys[j]
      decreases remaining
    {
      if key :| key in remaining {
        keys := keys + [key];
        remaining := remaining - {key};
      } else {
        break;
      }
    }
  }

  /** sortBehaviors: collect the keys, sort them descending, list the behaviors in that order. */
  method SortBehaviors(behaviors: map<int, Behavior>) returns (sorted: seq<Behavior>)
    ensures sorted == SortedBehaviors(behaviors)
  {
    var keys := CollectKeys(behaviors);
    var slice := new int[|keys|](i requires 0 <= i < |keys| => keys[i]);
    assert slice[..] == keys;
    SortDescending(slice);
    SortedDistinctKeys(keys, slice[..]);
    DescendingKeysUnique(slice[..], behaviors.Keys);

    sorted := ListByKeys(behaviors, slice[..]);
  }

  /** `for _, key := range keys { sorted = append(sorted, behaviors[key]) }`. */
  method ListByKeys(behaviors: map<int, Behavior>, keys: seq<int>) returns (sorted: seq<Behavior>)
    requires forall i :: 0 <= i < |keys| ==> keys[i] in behaviors
    ensures sorted == seq(|keys|, i requires 0 <= i < |keys| => behaviors[keys[i]])
  {
    sorted := [];
    for i := 0 to |keys|
      invariant |sorted| == i
      invariant forall j :: 0 <= j < i ==> sorted[j] == behaviors[keys[j]]
    {
      sorted := sorted + [behaviors[keys[i]]];
    }
  }

  /** Sorting distinct keys descending lists them strictly descending, and no others. */
  lemma SortedDistinctKeys(keys: seq<int>, sorted: seq<int>)
    requires forall i, j :: 0 <= i < j < |keys| ==> keys[i] != keys[j]
    requires multiset(sorted) == multiset(keys)
    requires Descending(sorted)
    ensures StrictlyDescending(sorted)
    ensures forall k :: k in sorted <==> k in keys
  {
    forall k ensures k in sorted <==> k in keys {
      assert k in sorted <==> k in multiset(sorted);
      assert k in keys <==> k in multiset(keys);
    }
    forall i, j | 0 <= i < j < |sorted| ensures sorted[i] > sorted[j] {
      if sorted[i] == sorted[j] {
        var k := sorted[i];
        assert multiset(sorted)[k] >= 2 by {
          assert sorted == sorted[..j] + sorted[j..];
          assert k in sorted[..j] && k in sorted[j..];
        }
        DistinctCount(keys, k);
      }
    }
  }

  lemma {:induction false} DistinctCount(s: seq<int>, k: int)
    requires forall i, j :: 0 <= i < j < |s| ==> s[i] != s[j]
    ensures multiset(s)[k] <= 1
    decreases |s|
  {
    if s != [] {
      assert s == [s[0]] + s[1..];
      DistinctCount(s[1..], k);
      if s[0] == k {
        assert k !in s[1..];
      }
    }
  }
}
