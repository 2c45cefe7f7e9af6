/**
 * The anchor-style mediator (mediator/mediator.go): the reordering of the
 * command behaviors, the wiring of both chains through their next fields,
 * and Send/Request, which pick a handler by type name and run the chain.
 */
module Mediator {
  import opened Wrappers
  import opened MediatorNames
  import opened MediatorBehaviors

  /** The outcome of `sortCommandBehaviors`: the reordered list, or the panic and the list as it was when it struck. */
  datatype SortResult = Sorted(order: seq<Behavior>) | SortPanicked(fault: Fault, partial: seq<Behavior>)

  /** The `IndexFunc` test of sortCommandBehaviors: the behavior's type name contains the anchor's. */
  function NameContains(anchor: string): Behavior -> bool
  {
    (b: Behavior) => Contains(TypeName(b.kind), anchor)
  }

  function Swap<T>(s: seq<T>, i: nat, j: nat): (r: seq<T>)
    requires i < |s| && j < |s|
    ensures |r| == |s| && r[i] == s[j] && r[j] == s[i]
    ensures forall k :: 0 <= k < |s| && k != i && k != j ==> r[k] == s[k]
    ensures multiset(r) == multiset(s)
  {
    s[i := s[j]][j := s[i]]
  }

  /** Where the validation behavior is taken from: 0 when the first behavior is it, else the first whose name contains its name. */
  function ValidationPosition(s: seq<Behavior>): int
    requires |s| > 0
  {
    if TypeName(s[0].kind) != ValidationBehaviorName then IndexFunc(s, NameContains(ValidationBehaviorName)) else 0
  }

  /** The list after the first anchor step (validation behavior to the front), when that step does not panic. */
  function ValidationFirst(s: seq<Behavior>): seq<Behavior>
    requires |s| > 0 && ValidationPosition(s) >= 0
  {
    if TypeName(s[0].kind) != ValidationBehaviorName then Swap(s, 0, ValidationPosition(s)) else s
  }

  /**
   * Where the event-dispatch behavior is taken from: the last index when the
   * last behavior of the ORIGINAL list (its name is read before the first swap)
   * is it, else the first position of the reordered list whose name contains its name.
   */
  function EventDispatchPosition(s: seq<Behavior>): int
    requires |s| > 0 && ValidationPosition(s) >= 0
  {
    if TypeName(s[|s| - 1].kind) != EventDispatchBehaviorName
    then IndexFunc(ValidationFirst(s), NameContains(EventDispatchBehaviorName))
    else |s| - 1
  }

  /** What `sortCommandBehaviors(behaviors)` leaves in the slice, or the index-out-of-range panic it raises. */
  function AnchorSort(s: seq<Behavior>): SortResult
  {
    if |s| == 0 then SortPanicked(IndexOutOfRange(0), s)
    else if ValidationPosition(s) < 0 then SortPanicked(IndexOutOfRange(ValidationPosition(s)), s)
    else
      var first := ValidationFirst(s);
      if EventDispatchPosition(s) < 0 then SortPanicked(IndexOutOfRange(EventDispatchPosition(s)), first)
      else if TypeName(s[|s| - 1].kind) != EventDispatchBehaviorName then Sorted(Swap(first, |s| - 1, EventDispatchPosition(s)))
      else Sorted(first)
  }

  /**
   * `sortCommandBehaviors(behaviors)`: swap the validation behavior to the
   * front, then the event-dispatch behavior to the back, in place.
   */
  method SortCommandBehaviors(behaviors: array<Behavior>) returns (fault: Option<Fault>)
    modifies behaviors
    ensures AnchorSort(old(behaviors[..])) ==
      if fault.None? then Sorted(behaviors[..]) else SortPanicked(fault.value, behaviors[..])
  {
    if behaviors.Length == 0 {
      return Some(IndexOutOfRange(0));
    }
    ghost var original := behaviors[..];
    var lastBehavior := behaviors[behaviors.Length - 1];
    assert lastBehavior == original[|original| - 1];
    var lastBehaviorName := TypeName(lastBehavior.kind);
    fault := MoveValidationFirst(behaviors);
    if fault.None? {
      assert ValidationPosition(original) >= 0;
      assert behaviors[..] == ValidationFirst(original);
      EventDispatchFoundIn(original, lastBehaviorName);
      fault := MoveEventDispatchLast(behaviors, lastBehaviorName);
    }
    AnchorSortSteps(original);
  }

  /** The first block of sortCommandBehaviors: unless the first behavior is the validation behavior, swap it to the front. */
  method MoveValidationFirst(behaviors: array<Behavior>) returns (fault: Option<Fault>)
    requires behaviors.Length > 0
    modifies behaviors
    ensures ValidationPosition(old(behaviors[..])) < 0 ==>
      fault == Some(IndexOutOfRange(ValidationPosition(old(behaviors[..])))) && behaviors[..] == old(behaviors[..])
    ensures ValidationPosition(old(behaviors[..])) >= 0 ==>
      fault == None && behaviors[..] == ValidationFirst(old(behaviors[..]))
  {
    var firstBehaviorName := TypeName(behaviors[0].kind);
    if firstBehaviorName != ValidationBehaviorName {
      var validationPosition := IndexFunc(behaviors[..], NameContains(ValidationBehaviorName));
      if validationPosition < 0 {
        return Some(IndexOutOfRange(validationPosition));
      }
      Exchange(behaviors, 0, validationPosition);
    }
    return None;
  }

  /**
   * The second block of sortCommandBehaviors: unless the behavior that was
   * last before the first block is the event-dispatch behavior, swap the
   * event-dispatch behavior to the back.
   */
  method MoveEventDispatchLast(behaviors: array<Behavior>, lastBehaviorName: string) returns (fault: Option<Fault>)
    requires behaviors.Length > 0
    modifies behaviors
    ensures lastBehaviorName == EventDispatchBehaviorName ==> fault == None && behaviors[..] == old(behaviors[..])
    ensures lastBehaviorName != EventDispatchBehaviorName ==>
      var position := IndexFunc(old(behaviors[..]), NameContains(EventDispatchBehaviorName));
      && (position < 0 ==> fault == Some(IndexOutOfRange(position)) && behaviors[..] == old(behaviors[..]))
      && (position >= 0 ==> fault == None && behaviors[..] == Swap(old(behaviors[..]), behaviors.Length - 1, position))
  {
    if lastBehaviorName != EventDispatchBehaviorName {
      var eventDispatchPosition := IndexFunc(behaviors[..], NameContains(EventDispatchBehaviorName));
      if eventDispatchPosition < 0 {
        return Some(IndexOutOfRange(eventDispatchPosition));
      }
      Exchange(behaviors, behaviors.Length - 1, eventDispatchPosition);
    }
    return None;
  }

  /** Where the second block looks for the event-dispatch behavior, in terms of the list before the first block. */
  lemma EventDispatchFoundIn(original: seq<Behavior>, lastBehaviorName: string)
    requires |original| > 0 && ValidationPosition(original) >= 0
    requires lastBehaviorName == TypeName(original[|original| - 1].kind)
    ensures lastBehaviorName != EventDispatchBehaviorName ==>
      EventDispatchPosition(original) == IndexFunc(ValidationFirst(original), NameContains(EventDispatchBehaviorName))
  {
  }

  /** The cases of AnchorSort, one step at a time. */
  lemma AnchorSortSteps(s: seq<Behavior>)
    requires |s| > 0
    ensures ValidationPosition(s) < 0 ==> AnchorSort(s) == SortPanicked(IndexOutOfRange(ValidationPosition(s)), s)
    ensures ValidationPosition(s) >= 0 && EventDispatchPosition(s) < 0 ==>
      AnchorSort(s) == SortPanicked(IndexOutOfRange(EventDispatchPosition(s)), ValidationFirst(s))
    ensures ValidationPosition(s) >= 0 && EventDispatchPosition(s) >= 0 && TypeName(s[|s| - 1].kind) != EventDispatchBehaviorName ==>
      AnchorSort(s) == Sorted(Swap(ValidationFirst(s), |s| - 1, EventDispatchPosition(s)))
    ensures ValidationPosition(s) >= 0 && TypeName(s[|s| - 1].kind) == EventDispatchBehaviorName ==>
      AnchorSort(s) == Sorted(ValidationFirst(s))
  {
  }

  /** The two-assignment swap of sortCommandBehaviors, through a temporary. */
  method Exchange(behaviors: array<Behavior>, i: nat, j: nat)
    requires i < behaviors.Length && j < behaviors.Length
    modifies behaviors
    ensures behaviors[..] == Swap(old(behaviors[..]), i, j)
  {
    var held := behaviors[i];
    behaviors[i] := behaviors[j];
    behaviors[j] := held;
  }

  /** The event-dispatch name differs from the validation name at each of its first offsets. */
  lemma NotAtOffset(k: nat)
    requires 1 <= k <= 3
    ensures !(ValidationBehaviorName <= EventDispatchBehaviorName[k..])
  {
    var v, e := ValidationBehaviorName, EventDispatchBehaviorName;
    LeadingCharacters();
    assert e[k..][0] == e[k];
    HeadsDiffer(v, e[k..]);
  }

  /** The first character of the validation name, and characters 1 to 3 of the event-dispatch name. */
  lemma LeadingCharacters()
    ensures ValidationBehaviorName[0] == '*'
    ensures EventDispatchBehaviorName[1] == 'b' && EventDispatchBehaviorName[2] == 'e' && EventDispatchBehaviorName[3] == 'h'
  {
    var e := EventDispatchBehaviorName;
    assert e[1] == 'b';
    assert e[2] == 'e';
    assert e[3] == 'h';
  }

  /** A string whose first character differs from that of `t` is not a prefix of `t`. */
  lemma HeadsDiffer(v: string, t: string)
    requires v != [] && t != [] && v[0] != t[0]
    ensures !(v <= t)
  {
  }

  lemma NotContainedFrom(k: nat)
    requires 1 <= k <= 4
    ensures !Contains(EventDispatchBehaviorName[k..], ValidationBehaviorName)
    decreases 4 - k
  {
    var v, e := ValidationBehaviorName, EventDispatchBehaviorName;
    if k == 4 {
      assert |e[4..]| == 28;
      if Contains(e[4..], v) {
        ContainsShorter(e[4..], v);
      }
    } else {
      NotContainedFrom(k + 1);
      NotAtOffset(k);
      assert e[k..][1..] == e[k + 1..];
      NotContainedStep(e[k..], v);
    }
  }

  lemma ValidationNameNotInEventDispatchName()
    ensures !Contains(EventDispatchBehaviorName, ValidationBehaviorName)
  {
    var v, e := ValidationBehaviorName, EventDispatchBehaviorName;
    assert !(v <= e) by {
      assert e[11] == 'E';
      assert v[11] == 'V';
    }
    NotContainedFrom(1);
    NotContainedStep(e, v);
  }

  lemma EventDispatchNameNotInValidationName()
    ensures !Contains(ValidationBehaviorName, EventDispatchBehaviorName)
  {
    var v, e := ValidationBehaviorName, EventDispatchBehaviorName;
    assert |v| == 29 && |e| == 32;
    if Contains(v, e) {
      ContainsShorter(v, e);
    }
  }

  /** Each anchor name contains itself and not the other one. */
  lemma AnchorNames()
    ensures Contains(ValidationBehaviorName, ValidationBehaviorName)
    ensures Contains(EventDispatchBehaviorName, EventDispatchBehaviorName)
    ensures !Contains(ValidationBehaviorName, EventDispatchBehaviorName)
    ensures !Contains(EventDispatchBehaviorName, ValidationBehaviorName)
  {
    ValidationNameNotInEventDispatchName();
    EventDispatchNameNotInValidationName();
  }

  /** No behavior's type name contains both anchor names. */
  ghost predicate AnchorsApart(s: seq<Behavior>)
  {
    forall i :: 0 <= i < |s| ==>
      !(NameContains(ValidationBehaviorName)(s[i]) && NameContains(EventDispatchBehaviorName)(s[i]))
  }

  /**
   * What sortCommandBehaviors achieves when it does not panic: the same
   * behaviors, a validation behavior first, an event-dispatch behavior last,
   * and every other position, except the two the anchors were taken from,
   * left as it was.
   */
  lemma AnchorSortPlaces(s: seq<Behavior>)
    requires AnchorSort(s).Sorted? && AnchorsApart(s)
    ensures var order := AnchorSort(s).order;
      && |order| == |s|
      && multiset(order) == multiset(s)
      && NameContains(ValidationBehaviorName)(order[0])
      && NameContains(EventDispatchBehaviorName)(order[|s| - 1])
      && forall i :: 0 < i < |s| - 1 && i != ValidationPosition(s) && i != EventDispatchPosition(s) ==> order[i] == s[i]
  {
    AnchorNames();
    var n := |s|;
    var p := ValidationPosition(s);
    var first := ValidationFirst(s);
    var q := EventDispatchPosition(s);
    var order := AnchorSort(s).order;
    var v, e := NameContains(ValidationBehaviorName), NameContains(EventDispatchBehaviorName);
    assert v(first[0]) && !e(first[0]) by {
      if TypeName(s[0].kind) != ValidationBehaviorName {
        assert first[0] == s[p];
      } else {
        assert first[0] == s[0];
      }
    }
    if TypeName(s[n - 1].kind) != EventDispatchBehaviorName {
      assert e(first[q]);
      assert q != 0;
      assert order == Swap(first, n - 1, q);
    } else {
      assert order == first;
      assert p != n - 1;
      assert first[n - 1] == s[n - 1];
    }
  }

  lemma {:induction false} PermutationKeepsWitness(a: seq<Behavior>, b: seq<Behavior>, f: Behavior -> bool)
    requires multiset(a) == multiset(b)
    ensures (exists i :: 0 <= i < |a| && f(a[i])) ==> (exists j :: 0 <= j < |b| && f(b[j]))
  {
    if exists i :: 0 <= i < |a| && f(a[i]) {
      var i :| 0 <= i < |a| && f(a[i]);
      assert a[i] in multiset(b);
      var j :| 0 <= j < |b| && b[j] == a[i];
    }
  }

  /**
   * sortCommandBehaviors panics unless the list is non-empty, a validation
   * behavior is first or some name contains its name, and an event-dispatch
   * behavior is last or some name contains its name.
   */
  lemma AnchorSortDefinedIff(s: seq<Behavior>)
    ensures AnchorSort(s).Sorted? <==>
      && |s| > 0
      && (TypeName(s[0].kind) == ValidationBehaviorName || exists i :: 0 <= i < |s| && NameContains(ValidationBehaviorName)(s[i]))
      && (TypeName(s[|s| - 1].kind) == EventDispatchBehaviorName || exists i :: 0 <= i < |s| && NameContains(EventDispatchBehaviorName)(s[i]))
  {
    if |s| > 0 && ValidationPosition(s) >= 0 {
      var first := ValidationFirst(s);
      PermutationKeepsWitness(s, first, NameContains(EventDispatchBehaviorName));
      PermutationKeepsWitness(first, s, NameContains(EventDispatchBehaviorName));
    }
  }

  lemma ValidationAnchor(b: Behavior)
    requires b.kind.ValidationBehavior?
    ensures NameContains(ValidationBehaviorName)(b) && !NameContains(EventDispatchBehaviorName)(b)
  {
    AnchorNames();
  }

  lemma EventDispatchAnchor(b: Behavior)
    requires b.kind == EventDispatchBehavior
    ensures NameContains(EventDispatchBehaviorName)(b) && !NameContains(ValidationBehaviorName)(b)
  {
    AnchorNames();
  }

  /**
   * The list [logging, event dispatch, validation] is reordered to
   * [validation, logging, event dispatch] (ValidationAnchor and
   * EventDispatchAnchor show that the two anchor behaviors meet these
   * conditions on their names).
   */
  lemma AnchorSortExample(logging: Behavior, eventDispatch: Behavior, validation: Behavior)
    requires NameContains(ValidationBehaviorName)(validation) && !NameContains(EventDispatchBehaviorName)(validation)
    requires TypeName(validation.kind) != EventDispatchBehaviorName
    requires NameContains(EventDispatchBehaviorName)(eventDispatch) && !NameContains(ValidationBehaviorName)(eventDispatch)
    requires TypeName(logging.kind) != ValidationBehaviorName
    requires !NameContains(ValidationBehaviorName)(logging) && !NameContains(EventDispatchBehaviorName)(logging)
    ensures AnchorSort([logging, eventDispatch, validation]) == Sorted([validation, logging, eventDispatch])
  {
    AnchorsBothSwapped([logging, eventDispatch, validation]);
  }

  lemma AnchorsBothSwapped(s: seq<Behavior>)
    requires |s| == 3
    requires NameContains(ValidationBehaviorName)(s[2]) && !NameContains(EventDispatchBehaviorName)(s[2])
    requires TypeName(s[2].kind) != EventDispatchBehaviorName
    requires NameContains(EventDispatchBehaviorName)(s[1]) && !NameContains(ValidationBehaviorName)(s[1])
    requires TypeName(s[0].kind) != ValidationBehaviorName
    requires !NameContains(ValidationBehaviorName)(s[0]) && !NameContains(EventDispatchBehaviorName)(s[0])
    ensures AnchorSort(s) == Sorted([s[2], s[0], s[1]])
  {
    ValidationTakenFrom(s, 2);
    var first := Swap(s, 0, 2);
    assert first[1] == s[1];
    EventDispatchTakenFrom(s, first, 1);
    var second := Swap(first, 2, 1);
    assert second[0] == s[2];
    ListOfThree(second, s[2], s[0], s[1]);
  }

  /** A list of length three is the display of its three elements. */
  lemma ListOfThree<T>(t: seq<T>, a: T, b: T, c: T)
    requires |t| == 3 && t[0] == a && t[1] == b && t[2] == c
    ensures t == [a, b, c]
  {
  }

  /** The first anchor step takes the validation behavior from position p: the first one whose name contains its name. */
  lemma ValidationTakenFrom(s: seq<Behavior>, p: nat)
    requires p < |s| && NameContains(ValidationBehaviorName)(s[p]) && TypeName(s[0].kind) != ValidationBehaviorName
    requires forall i :: 0 <= i < p ==> !NameContains(ValidationBehaviorName)(s[i])
    ensures ValidationPosition(s) == p && ValidationFirst(s) == Swap(s, 0, p)
  {
  }

  /** The second anchor step takes the event-dispatch behavior from position q of the reordered list. */
  lemma EventDispatchTakenFrom(s: seq<Behavior>, first: seq<Behavior>, q: nat)
    requires |s| > 0 && ValidationPosition(s) >= 0 && first == ValidationFirst(s)
    requires q < |first| && NameContains(EventDispatchBehaviorName)(first[q])
    requires forall i :: 0 <= i < q ==> !NameContains(EventDispatchBehaviorName)(first[i])
    requires TypeName(s[|s| - 1].kind) != EventDispatchBehaviorName
    ensures EventDispatchPosition(s) == q
    ensures AnchorSort(s) == Sorted(Swap(first, |s| - 1, q))
  {
  }

  /**
   * The behaviors between the anchors do not keep their order: [logging,
   * metrics, validation, event dispatch] becomes [validation, metrics,
   * logging, event dispatch].
   */
  lemma AnchorSortReordersMiddle(logging: Behavior, metrics: Behavior, validation: Behavior, eventDispatch: Behavior)
    requires NameContains(ValidationBehaviorName)(validation)
    requires TypeName(eventDispatch.kind) == EventDispatchBehaviorName
    requires TypeName(logging.kind) != ValidationBehaviorName
    requires !NameContains(ValidationBehaviorName)(logging) && !NameContains(ValidationBehaviorName)(metrics)
    ensures AnchorSort([logging, metrics, validation, eventDispatch]) == Sorted([validation, metrics, logging, eventDispatch])
  {
    MiddleSwapped([logging, metrics, validation, eventDispatch]);
  }

  lemma MiddleSwapped(s: seq<Behavior>)
    requires |s| == 4
    requires NameContains(ValidationBehaviorName)(s[2]) && TypeName(s[3].kind) == EventDispatchBehaviorName
    requires TypeName(s[0].kind) != ValidationBehaviorName
    requires !NameContains(ValidationBehaviorName)(s[0]) && !NameContains(ValidationBehaviorName)(s[1])
    ensures AnchorSort(s) == Sorted([s[2], s[1], s[0], s[3]])
  {
    ValidationTakenFrom(s, 2);
    EventDispatchKeptLast(s);
    assert Swap(s, 0, 2) == [s[2], s[1], s[0], s[3]];
  }

  /** When the last behavior is already the event-dispatch behavior, the second anchor step does nothing. */
  lemma EventDispatchKeptLast(s: seq<Behavior>)
    requires |s| > 0 && ValidationPosition(s) >= 0
    requires TypeName(s[|s| - 1].kind) == EventDispatchBehaviorName
    ensures AnchorSort(s) == Sorted(ValidationFirst(s))
  {
  }

  /** No behavior object occurs twice in the list. */
  predicate Distinct(s: seq<Behavior>)
  {
    forall i, j :: 0 <= i < j < |s| ==> s[i] != s[j]
  }

  lemma DistinctSwap(s: seq<Behavior>, i: nat, j: nat)
    requires i < |s| && j < |s|
    ensures multiset(Swap(s, i, j)) == multiset(s)
    ensures Distinct(s) ==> Distinct(Swap(s, i, j))
  {
    var r := Swap(s, i, j);
    if Distinct(s) {
      forall a, b | 0 <= a < b < |r|
        ensures r[a] != r[b]
      {
        var a' := if a == i then j else if a == j then i else a;
        var b' := if b == i then j else if b == j then i else b;
        assert r[a] == s[a'] && r[b] == s[b'] && a' != b';
      }
    }
  }

  /** The first anchor step keeps the behaviors, each once when they were. */
  lemma ValidationFirstPermutes(s: seq<Behavior>)
    requires |s| > 0 && ValidationPosition(s) >= 0
    ensures multiset(ValidationFirst(s)) == multiset(s)
    ensures Distinct(s) ==> Distinct(ValidationFirst(s))
  {
    if TypeName(s[0].kind) != ValidationBehaviorName {
      DistinctSwap(s, 0, ValidationPosition(s));
    }
  }

  /**
   * sortCommandBehaviors only exchanges elements: what it leaves in the slice,
   * sorted or not, holds the same behaviors, and holds each once when the
   * input did.
   */
  lemma AnchorSortPermutes(s: seq<Behavior>)
    ensures var r := if AnchorSort(s).Sorted? then AnchorSort(s).order else AnchorSort(s).partial;
      && multiset(r) == multiset(s)
      && (Distinct(s) ==> Distinct(r))
  {
    if |s| > 0 && ValidationPosition(s) >= 0 {
      var first := ValidationFirst(s);
      ValidationFirstPermutes(s);
      var position := EventDispatchPosition(s);
      var moved := position >= 0 && TypeName(s[|s| - 1].kind) != EventDispatchBehaviorName;
      if moved {
        DistinctSwap(first, |s| - 1, position);
      }
      AnchoredList(s);
    } else if |s| > 0 {
      AnchorSortSteps(s);
    }
  }

  /** The list AnchorSort leaves once the validation behavior is found: the first step's, with the second swap when it happens. */
  lemma AnchoredList(s: seq<Behavior>)
    requires |s| > 0 && ValidationPosition(s) >= 0
    ensures var r := if AnchorSort(s).Sorted? then AnchorSort(s).order else AnchorSort(s).partial;
      var position := EventDispatchPosition(s);
      r == if position >= 0 && TypeName(s[|s| - 1].kind) != EventDispatchBehaviorName
        then Swap(ValidationFirst(s), |s| - 1, position) else ValidationFirst(s)
  {
  }

  lemma SortedKeepsBehaviors(s: seq<Behavior>, order: seq<Behavior>)
    requires AnchorSort(s) == Sorted(order)
    ensures forall b :: b in order ==> b in s
    ensures Distinct(s) ==> Distinct(order)
  {
    AnchorSortPermutes(s);
    assert multiset(order) == multiset(s);
    forall b | b in order
      ensures b in s
    {
      assert b in multiset(order);
    }
  }

  /**
   * `configureCommandBehaviors(params)`: nothing for an empty list; otherwise
   * sort the list in place, then point each behavior's NextAction at the next
   * one's HandleCommand and the last one's at nil.
   */
  method ConfigureCommandBehaviors(behaviors: array<Behavior>) returns (fault: Option<Fault>)
    modifies behaviors, set b | b in behaviors[..]
    ensures behaviors.Length == 0 ==> fault == None
    ensures behaviors.Length > 0 ==>
      AnchorSort(old(behaviors[..])) == if fault.None? then Sorted(behaviors[..]) else SortPanicked(fault.value, behaviors[..])
    ensures forall b :: b in old(behaviors[..]) ==> b.nextRequest == old(b.nextRequest)
    ensures fault.Some? ==> forall b :: b in old(behaviors[..]) ==> b.nextAction == old(b.nextAction)
    ensures fault.None? && behaviors.Length > 0 ==> behaviors[behaviors.Length - 1].nextAction == NilNext
    ensures fault.None? && Distinct(old(behaviors[..])) && behaviors.Length > 0 ==> CommandChain(behaviors[..])
  {
    if behaviors.Length <= 0 {
      return None;
    }
    ghost var original := behaviors[..];
    fault := SortCommandBehaviors(behaviors);
    if fault.Some? {
      return;
    }
    ghost var sorted := behaviors[..];
    SortedKeepsBehaviors(original, sorted);
    WireActions(behaviors[..]);
  }

  /** The loop of configureCommandBehaviors over the sorted slice. */
  method WireActions(behaviors: seq<Behavior>)
    modifies set b | b in behaviors
    ensures forall b :: b in behaviors ==> b.nextRequest == old(b.nextRequest)
    ensures |behaviors| > 0 ==> behaviors[|behaviors| - 1].nextAction == NilNext
    ensures Distinct(behaviors) && |behaviors| > 0 ==> CommandChain(behaviors)
  {
    var n := |behaviors|;
    var index := 0;
    while index < n
      invariant 0 <= index <= n
      invariant forall b :: b in behaviors ==> b.nextRequest == old(b.nextRequest)
      invariant index == n && n > 0 ==> behaviors[n - 1].nextAction == NilNext
      invariant Distinct(behaviors) ==>
        forall j :: 0 <= j < index ==> behaviors[j].nextAction == if j < n - 1 then BehaviorNext(behaviors[j + 1]) else NilNext
    {
      var behavior := behaviors[index];
      if index < n - 1 {
        behavior.SetNextAction(BehaviorNext(behaviors[index + 1]));
      } else {
        behavior.SetNextAction(NilNext);
      }
      index := index + 1;
    }
  }

  /**
   * `configureQueryBehaviors(params)`: in the order given, point each
   * behavior's NextRequest at the next one's HandleQuery and the last one's at nil.
   */
  method ConfigureQueryBehaviors(behaviors: seq<Behavior>)
    modifies set b | b in behaviors
    ensures forall b :: b in behaviors ==> b.nextAction == old(b.nextAction)
    ensures |behaviors| > 0 ==> behaviors[|behaviors| - 1].nextRequest == NilNext
    ensures Distinct(behaviors) && |behaviors| > 0 ==> QueryChain(behaviors)
  {
    var n := |behaviors|;
    var index := 0;
    while index < n
      invariant 0 <= index <= n
      invariant forall b :: b in behaviors ==> b.nextAction == old(b.nextAction)
      invariant index == n && n > 0 ==> behaviors[n - 1].nextRequest == NilNext
      invariant Distinct(behaviors) ==>
        forall j :: 0 <= j < index ==> behaviors[j].nextRequest == if j < n - 1 then BehaviorNext(behaviors[j + 1]) else NilNext
    {
      var behavior := behaviors[index];
      if index < n - 1 {
        behavior.SetNextRequest(BehaviorNext(behaviors[index + 1]));
      } else {
        behavior.SetNextRequest(NilNext);
      }
      index := index + 1;
    }
  }

  /** The `IndexFunc` test of Send and Request: the handler's type name contains the message's. */
  function HandlerMatches(message: Message): Handler -> bool
  {
    (h: Handler) => Contains(h.typeName, message.typeName)
  }

  /** The behaviors whose next field Send (or Request) replaces: the last one, if any. */
  function LastOf(chain: seq<Behavior>): seq<Behavior>
  {
    if |chain| == 0 then [] else [chain[|chain| - 1]]
  }

  /** What a call of Send or Request does, given the behaviors and handlers it was built with. */
  function Answer(chain: seq<BehaviorKind>, handlers: seq<Handler>, message: Message, notFound: Fault, isCommand: bool): Run
  {
    var position := IndexFunc(handlers, HandlerMatches(message));
    if position <= -1 then Run(Faulted(notFound), [])
    else if |chain| <= 0 then CallTerminal(Some(handlers[position]), message)
    else if isCommand then RunCommand(chain, Some(handlers[position]), message)
    else RunQuery(chain, Some(handlers[position]), message)
  }

  /** `Mediator`: the (sorted) command behaviors, the query behaviors and the two handler lists. */
  class Mediator {
    const commandBehaviors: seq<Behavior>
    const queryBehaviors: seq<Behavior>
    const handlers: seq<Handler>
    const queryHandlers: seq<Handler>

    /** Both chains are wired: each behavior's next is the following one's handle method. */
    ghost predicate Valid()
      reads set b | b in commandBehaviors, set b | b in queryBehaviors
    {
      (|commandBehaviors| > 0 ==> CommandChain(commandBehaviors)) &&
      (|queryBehaviors| > 0 ==> QueryChain(queryBehaviors))
    }

    constructor (commandBehaviors: seq<Behavior>, queryBehaviors: seq<Behavior>, handlers: seq<Handler>, queryHandlers: seq<Handler>)
      ensures this.commandBehaviors == commandBehaviors && this.queryBehaviors == queryBehaviors
      ensures this.handlers == handlers && this.queryHandlers == queryHandlers
    {
      this.commandBehaviors := commandBehaviors;
      this.queryBehaviors := queryBehaviors;
      this.handlers := handlers;
      this.queryHandlers := queryHandlers;
    }

    /**
     * `Send(ctx, command)`: the first handler whose type name contains the
     * command's (a panic if there is none), called directly when there are no
     * command behaviors, else installed as the last behavior's NextAction and
     * reached through the chain from the first behavior.
     */
    method Send(command: Message) returns (run: Run)
      requires Valid()
      modifies LastOf(commandBehaviors)
      ensures Valid()
      ensures run == Answer(Kinds(commandBehaviors), handlers, command, CommandHandlerNotFound(command.typeName), true)
      ensures IndexFunc(handlers, HandlerMatches(command)) >= 0 && |commandBehaviors| > 0 ==>
        commandBehaviors[|commandBehaviors| - 1].nextAction == HandlerNext(handlers[IndexFunc(handlers, HandlerMatches(command))])
      ensures IndexFunc(handlers, HandlerMatches(command)) < 0 ==>
        forall b :: b in commandBehaviors ==> b.nextAction == old(b.nextAction)
      ensures forall b :: b in commandBehaviors ==> b.nextRequest == old(b.nextRequest)
      ensures forall b :: b in queryBehaviors ==> b.nextRequest == old(b.nextRequest)
    {
      var position := IndexFunc(handlers, HandlerMatches(command));
      if position <= -1 {
        return Run(Faulted(CommandHandlerNotFound(command.typeName)), []);
      }
      var handler := handlers[position];
      if |commandBehaviors| <= 0 {
        return CallTerminal(Some(handler), command);
      }
      InstallCommandHandler(handler);
      run := commandBehaviors[0].HandleCommand(command, commandBehaviors, 0);
      assert commandBehaviors[0..] == commandBehaviors;
    }

    /** The line of Send that points the last behavior's NextAction at the handler. */
    method InstallCommandHandler(handler: Handler)
      requires Valid() && |commandBehaviors| > 0
      modifies LastOf(commandBehaviors)
      ensures Valid() && CommandChain(commandBehaviors)
      ensures commandBehaviors[|commandBehaviors| - 1].nextAction == HandlerNext(handler)
      ensures forall b :: b in commandBehaviors ==> b.nextRequest == old(b.nextRequest)
      ensures forall b :: b in queryBehaviors ==> b.nextRequest == old(b.nextRequest)
    {
      var n := |commandBehaviors|;
      var last := commandBehaviors[n - 1];
      assert CommandChain(commandBehaviors);
      forall j | 0 <= j < n - 1
        ensures commandBehaviors[j] != last
      {
        assert commandBehaviors[j].nextAction == BehaviorNext(commandBehaviors[j + 1]);
      }
      assert LastOf(commandBehaviors) == [last];
      assert last in LastOf(commandBehaviors);
      last.SetNextAction(HandlerNext(handler));
      assert CommandChain(commandBehaviors);
      assert |queryBehaviors| > 0 ==> QueryChain(queryBehaviors);
    }

    /**
     * `Request(ctx, query)`: the same as Send with the query handlers, the
     * query behaviors and their NextRequest fields.
     */
    method Request(query: Message) returns (run: Run)
      requires Valid()
      modifies LastOf(queryBehaviors)
      ensures Valid()
      ensures run == Answer(Kinds(queryBehaviors), queryHandlers, query, QueryHandlerNotFound(query.typeName), false)
      ensures IndexFunc(queryHandlers, HandlerMatches(query)) >= 0 && |queryBehaviors| > 0 ==>
        queryBehaviors[|queryBehaviors| - 1].nextRequest == HandlerNext(queryHandlers[IndexFunc(queryHandlers, HandlerMatches(query))])
      ensures IndexFunc(queryHandlers, HandlerMatches(query)) < 0 ==>
        forall b :: b in queryBehaviors ==> b.nextRequest == old(b.nextRequest)
      ensures forall b :: b in queryBehaviors ==> b.nextAction == old(b.nextAction)
      ensures forall b :: b in commandBehaviors ==> b.nextAction == old(b.nextAction)
    {
      var position := IndexFunc(queryHandlers, HandlerMatches(query));
      if position <= -1 {
        return Run(Faulted(QueryHandlerNotFound(query.typeName)), []);
      }
      var handler := queryHandlers[position];
      if |queryBehaviors| <= 0 {
        return CallTerminal(Some(handler), query);
      }
      InstallQueryHandler(handler);
      run := queryBehaviors[0].HandleQuery(query, queryBehaviors, 0);
      assert queryBehaviors[0..] == queryBehaviors;
    }

    /** The line of Request that points the last behavior's NextRequest at the handler. */
    method InstallQueryHandler(handler: Handler)
      requires Valid() && |queryBehaviors| > 0
      modifies LastOf(queryBehaviors)
      ensures Valid() && QueryChain(queryBehaviors)
      ensures queryBehaviors[|queryBehaviors| - 1].nextRequest == HandlerNext(handler)
      ensures forall b :: b in queryBehaviors ==> b.nextAction == old(b.nextAction)
      ensures forall b :: b in commandBehaviors ==> b.nextAction == old(b.nextAction)
    {
      var n := |queryBehaviors|;
      var last := queryBehaviors[n - 1];
      assert QueryChain(queryBehaviors);
      forall j | 0 <= j < n - 1
        ensures queryBehaviors[j] != last
      {
        assert queryBehaviors[j].nextRequest == BehaviorNext(queryBehaviors[j + 1]);
      }
      assert LastOf(queryBehaviors) == [last];
      assert last in LastOf(queryBehaviors);
      last.SetNextRequest(HandlerNext(handler));
      assert QueryChain(queryBehaviors);
      assert |commandBehaviors| > 0 ==> CommandChain(commandBehaviors);
    }
  }

  /** `MediatorParams`: the four groups the container injects. */
  datatype MediatorParams = MediatorParams(
    commandBehaviors: array<Behavior>,
    queryBehaviors: seq<Behavior>,
    handlers: seq<Handler>,
    queryHandlers: seq<Handler>)

  /**
   * `NewMediator(params)`: configure the command behaviors (sorting them in
   * place), then the query behaviors, and keep the four lists; the sort's
   * panic propagates.
   */
  method NewMediator(params: MediatorParams) returns (fault: Option<Fault>, mediator: Mediator?)
    modifies params.commandBehaviors, set b | b in params.commandBehaviors[..], set b | b in params.queryBehaviors
    ensures fault.Some? <==> mediator == null
    ensures params.commandBehaviors.Length > 0 ==>
      AnchorSort(old(params.commandBehaviors[..])) ==
      if fault.None? then Sorted(params.commandBehaviors[..]) else SortPanicked(fault.value, params.commandBehaviors[..])
    ensures params.commandBehaviors.Length == 0 ==> fault == None
    ensures mediator != null ==>
      && fresh(mediator)
      && mediator.commandBehaviors == params.commandBehaviors[..]
      && mediator.queryBehaviors == params.queryBehaviors
      && mediator.handlers == params.handlers
      && mediator.queryHandlers == params.queryHandlers
    ensures mediator != null ==> LastActionNil(mediator.commandBehaviors) && LastRequestNil(mediator.queryBehaviors)
    ensures mediator != null && Distinct(old(params.commandBehaviors[..])) && Distinct(params.queryBehaviors) ==> mediator.Valid()
  {
    fault := ConfigureCommandBehaviors(params.commandBehaviors);
    if fault.Some? {
      return fault, null;
    }
    var chain := params.commandBehaviors[..];
    assert Distinct(old(params.commandBehaviors[..])) && |chain| > 0 ==> CommandChain(chain);
    assert LastActionNil(chain);
    mediator := Assemble(chain, params.queryBehaviors, params.handlers, params.queryHandlers);
  }

  /** The last behavior's NextAction is nil, as configureCommandBehaviors leaves it. */
  ghost predicate LastActionNil(chain: seq<Behavior>)
    reads set b | b in chain
  {
    |chain| > 0 ==> chain[|chain| - 1].nextAction == NilNext
  }

  /** The last behavior's NextRequest is nil, as configureQueryBehaviors leaves it. */
  ghost predicate LastRequestNil(chain: seq<Behavior>)
    reads set b | b in chain
  {
    |chain| > 0 ==> chain[|chain| - 1].nextRequest == NilNext
  }

  /**
   * The rest of `NewMediator(params)`: configure the query behaviors, which
   * leaves every NextAction as it was, and build the `Mediator`.
   */
  method Assemble(chain: seq<Behavior>, queries: seq<Behavior>, handlers: seq<Handler>, queryHandlers: seq<Handler>) returns (mediator: Mediator)
    modifies set b | b in queries
    ensures fresh(mediator)
    ensures mediator.commandBehaviors == chain && mediator.queryBehaviors == queries
    ensures mediator.handlers == handlers && mediator.queryHandlers == queryHandlers
    ensures forall b :: b in chain ==> b.nextAction == old(b.nextAction)
    ensures old(LastActionNil(chain)) ==> LastActionNil(mediator.commandBehaviors)
    ensures LastRequestNil(mediator.queryBehaviors)
    ensures (|chain| > 0 ==> old(CommandChain(chain))) && Distinct(queries) ==> mediator.Valid()
  {
    ghost var chained := |chain| > 0 && old(CommandChain(chain));
    ConfigureQueryBehaviors(queries);
    assert forall j :: 0 <= j < |chain| ==> chain[j].nextAction == old(chain[j].nextAction);
    assert chained ==> CommandChain(chain);
    assert |chain| > 0 ==> chain[|chain| - 1].nextAction == old(chain[|chain| - 1].nextAction);
    assert |queries| > 0 ==> queries[|queries| - 1].nextRequest == NilNext;
    ghost var queryChained := Distinct(queries) && |queries| > 0;
    assert queryChained ==> QueryChain(queries);
    mediator := new Mediator(chain, queries, handlers, queryHandlers);
    assert chained ==> CommandChain(mediator.commandBehaviors);
    assert queryChained ==> QueryChain(mediator.queryBehaviors);
  }

  /** Send and Request panic exactly when no handler's type name contains the message's, and then do nothing else. */
  lemma PanicsIffNoHandler(chain: seq<BehaviorKind>, handlers: seq<Handler>, message: Message, notFound: Fault, isCommand: bool)
    ensures var run := Answer(chain, handlers, message, notFound, isCommand);
      && (run.outcome.Faulted? <==> forall i :: 0 <= i < |handlers| ==> !HandlerMatches(message)(handlers[i]))
      && (run.outcome.Faulted? ==> run == Run(Faulted(notFound), []))
  {
    var position := IndexFunc(handlers, HandlerMatches(message));
    if position > -1 {
      InstalledHandlerReturns(chain, handlers[position], message);
    }
  }

  /** Without behaviors, the first handler whose type name contains the message's answers, called once. */
  lemma FirstMatchingHandlerAnswers(handlers: seq<Handler>, message: Message, notFound: Fault, isCommand: bool, k: nat)
    requires k < |handlers| && HandlerMatches(message)(handlers[k])
    requires forall i :: 0 <= i < k ==> !HandlerMatches(message)(handlers[i])
    ensures Answer([], handlers, message, notFound, isCommand) ==
      Run(Returned(handlers[k].handle(message)), [HandlerCalled(handlers[k].typeName)])
  {
  }

  /**
   * Send through a chain sorted as NewMediator sorts it: a validation error
   * comes back before the handler runs and nothing is committed; otherwise
   * the first matching handler's reply comes back unchanged and the domain
   * events are committed last.
   */
  lemma SendThroughSortedChain(validation: BehaviorKind, middle: seq<BehaviorKind>, handlers: seq<Handler>, command: Message, k: nat)
    requires validation.ValidationBehavior?
    requires forall i :: 0 <= i < |middle| ==> IsPassThrough(middle[i])
    requires k < |handlers| && HandlerMatches(command)(handlers[k])
    requires forall i :: 0 <= i < k ==> !HandlerMatches(command)(handlers[i])
    ensures var run := Answer([validation] + middle + [EventDispatchBehavior], handlers, command, CommandHandlerNotFound(command.typeName), true);
      var err := Verdict(validation.commandValidators, command);
      && (err.Some? ==> run.outcome == Returned(Reply(None, err)) && DomainEventsCommitted !in run.effects)
      && (err.None? ==> run.outcome == Returned(handlers[k].handle(command)) && run.effects[|run.effects| - 1] == DomainEventsCommitted)
  {
    SortedChainRun(validation, middle, handlers[k], command);
  }

  /** Request through a validation behavior first: a validation error comes back before the handler runs, else the handler's reply. */
  lemma RequestThroughValidation(validation: BehaviorKind, rest: seq<BehaviorKind>, handlers: seq<Handler>, query: Message, k: nat)
    requires validation.ValidationBehavior?
    requires forall i :: 0 <= i < |rest| ==> !rest[i].ValidationBehavior?
    requires k < |handlers| && HandlerMatches(query)(handlers[k])
    requires forall i :: 0 <= i < k ==> !HandlerMatches(query)(handlers[i])
    ensures var run := Answer([validation] + rest, handlers, query, QueryHandlerNotFound(query.typeName), false);
      var err := Verdict(validation.queryValidators, query);
      && (err.Some? ==> run.outcome == Returned(Reply(None, err)) && run.effects == [Entered(ValidationBehaviorName)])
      && (err.None? ==> run.outcome == Returned(handlers[k].handle(query)))
  {
    ValidatedQueryRun(validation, rest, handlers[k], query);
  }
}
