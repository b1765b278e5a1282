/** `Observable` of dvgutils/helpers/observable.py: for every event, the observers registered for it,
    each with its callback, in the order the observers were first registered. Callbacks are opaque
    values; `notify` is modelled by the sequence of callbacks it invokes. */
module Observable {
  import opened Wrappers
  import opened OrderedMaps

  class Observable<E(==), O(==,!new), C> {
    /** `self._events`: event to (observer to callback). */
    var events: map<E, OrderedMap<O, C>>

    /** Every event's observer map is well formed. */
    ghost predicate Valid()
      reads this
    {
      forall e :: e in events ==> events[e].Valid()
    }

    constructor ()
      ensures Valid() && events == map[]
    {
      events := map[];
    }

    /** The observers of an event, or none when it has no entry. */
    function Observers(event: E): OrderedMap<O, C>
      reads this
    {
      if event in events then events[event] else Empty()
    }

    /** `register(event, observer, callback)`: creates the event's entry when absent, then maps the
        observer to the callback (replacing an earlier callback of the same observer in place), and
        returns the observable itself. */
    method Register(event: E, observer: O, callback: C) returns (self: Observable<E, O, C>)
      requires Valid()
      modifies this
      ensures self == this && Valid()
      ensures events == old(events)[event := Put(old(Observers(event)), observer, callback)]
    {
      if event !in events {
        events := events[event := Empty()];
      }
      PutProperties(events[event], observer, callback);
      events := events[event := Put(events[event], observer, callback)];
      self := this;
    }

    /** `unregister(event, observer)`: `del self._events[event][observer]`. A KeyError when the event
        has no entry or the observer is not registered for it, and then nothing changes. An event
        whose last observer is removed keeps its (empty) entry. */
    method Unregister(event: E, observer: O) returns (r: Result<()>)
      requires Valid()
      modifies this
      ensures Valid()
      ensures r.Err? <==> event !in old(events) || observer !in old(events)[event].values
      ensures r.Err? ==> r.error == KeyError && events == old(events)
      ensures r.Ok? ==> events == old(events)[event := Remove(old(events)[event], observer)]
    {
      if event !in events || observer !in events[event].values {
        return Err(KeyError);
      }
      RemoveProperties(events[event], observer);
      events := events[event := Remove(events[event], observer)];
      r := Ok(());
    }

    /** `notify(event, ...)`: the callbacks invoked, one per registered observer of the event, in
        registration order; none when the event has no entry. */
    method Notify(event: E) returns (called: seq<C>)
      requires Valid()
      ensures called == if event in events then ValuesInOrder(events[event]) else []
    {
      called := [];
      if event in events {
        var observers := events[event];
        var i := 0;
        while i < |observers.keys|
          invariant 0 <= i <= |observers.keys|
          invariant called == ValuesInOrder(observers)[..i]
        {
          called := called + [observers.values[observers.keys[i]]];
          i := i + 1;
        }
      }
    }
  }
}
