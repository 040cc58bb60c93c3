/** `resolveElement`: a promise for the first element an element supplier
    yields, retrying after every batch of document mutations. The supplier is
    modelled by its trace: the outcome of the call made up front, then one
    outcome per mutation batch the observer sees. */
module HtmlHelper {
  import opened Wrappers

  /** One call of the element supplier: a truthy element, a falsy value, or
      an exception. */
  datatype Supplied<T> = Element(element: T) | NoElement | Throws

  /** The state of the returned promise once the trace has been played. */
  datatype Resolution<T> =
    | Resolved(element: T, supplierCalls: nat, observerCreated: bool)
    | Rejected
    | Pending(supplierCalls: nat)

  /** Index of the first call that yields an element. */
  function FirstElement<T>(trace: seq<Supplied<T>>): (r: Option<nat>)
    ensures r.Some? ==> r.value < |trace| && trace[r.value].Element?
    ensures r.Some? ==> forall j :: 0 <= j < r.value ==> !trace[j].Element?
    ensures r.None? ==> forall j :: 0 <= j < |trace| ==> !trace[j].Element?
    decreases |trace|
  {
    if |trace| == 0 then None
    else if trace[0].Element? then Some(0)
    else
      match FirstElement(trace[1..])
      case None => None
      case Some(k) => Some(k + 1)
  }

  /** Batches after the first element do not affect where it is found. */
  lemma FirstElementIgnoresLater<T>(trace: seq<Supplied<T>>, later: seq<Supplied<T>>)
    requires FirstElement(trace).Some?
    ensures FirstElement(trace + later) == FirstElement(trace)
  {
    var k := FirstElement(trace).value;
    var t := trace + later;
    forall j | 0 <= j < k ensures !t[j].Element? {
      assert t[j] == trace[j];
    }
    FirstElementAt(t, k);
  }

  /** Plays the trace the way the promise executor and the observer callback
      do. An exception in the executor rejects the promise; an exception in
      the observer callback only ends that callback, and the observer keeps
      watching. Once resolved the observer is disconnected, so later batches
      make no supplier call. */
  method ResolveElement<T>(initial: Supplied<T>, batches: seq<Supplied<T>>) returns (r: Resolution<T>)
    ensures r.Rejected? <==> initial.Throws?
    ensures initial.Element? ==> r == Resolved(initial.element, 1, false)
    ensures initial.NoElement? && FirstElement(batches).Some? ==>
              r == Resolved(batches[FirstElement(batches).value].element, FirstElement(batches).value + 2, true)
    ensures initial.NoElement? && FirstElement(batches).None? ==> r == Pending(1 + |batches|)
  {
    if initial.Throws? {
      return Rejected;
    }
    if initial.Element? {
      return Resolved(initial.element, 1, false);
    }
    var i := 0;
    while i < |batches|
      invariant 0 <= i <= |batches|
      invariant forall j :: 0 <= j < i ==> !batches[j].Element?
    {
      if batches[i].Element? {
        FirstElementAt(batches, i);
        return Resolved(batches[i].element, i + 2, true);
      }
      i := i + 1;
    }
    return Pending(1 + |batches|);
  }

  lemma FirstElementAt<T>(trace: seq<Supplied<T>>, i: nat)
    requires i < |trace| && trace[i].Element?
    requires forall j :: 0 <= j < i ==> !trace[j].Element?
    ensures FirstElement(trace) == Some(i)
  {
  }

  /** What an `await` on the promise inside a `try` gives the caller: the
      element, the caught error, or no continuation at all. */
  datatype Lookup<T> = Found(value: T) | Errored | NeverFound

  function Await<T>(r: Resolution<T>): (l: Lookup<T>)
    ensures l.Found? <==> r.Resolved?
    ensures l.Errored? <==> r.Rejected?
    ensures l.Found? ==> l.value == r.element
  {
    match r
    case Resolved(e, _, _) => Found(e)
    case Rejected => Errored
    case Pending(_) => NeverFound
  }
}
