/** The queue of pending events, `mope::detail::event_pool`
    (include/mope_game_engine/event_pool.hxx). The source erases each event's
    type behind a `void*` paired with the `process_event<Event>` function to
    call on it; the model tags each event with its type instead. */
module Events {

  /** The identity of a C++ event type (`typeid(Event)`). */
  type EventTag = nat

  /** A stored event: its type and its data (the `void*`, plus `process_event<Event>`,
      which the tag selects). */
  datatype Event<P> = Event(tag: EventTag, payload: P)

  class EventPool<P> {
    /** `m_events`, in the order `store` was called. */
    var events: seq<Event<P>>

    constructor ()
      ensures events == [] && Events() == []
    {
      events := [];
    }

    /** `store<Event>(args...)`: the new event goes at the end; the events
        already stored are untouched. */
    method Store(ev: Event<P>)
      modifies this
      ensures events == old(events) + [ev]
      ensures |events| == |old(events)| + 1 && events[|events| - 1] == ev
      ensures forall i | 0 <= i < |old(events)| :: events[i] == old(events)[i]
      ensures Events() == old(Events()) + [ev]
    {
      events := events + [ev];
    }

    /** `events()`: the stored events, oldest first. */
    function Events(): (s: seq<Event<P>>)
      reads this
      ensures s == events
    {
      events
    }

    /** `clear()`. */
    method Clear()
      modifies this
      ensures events == [] && Events() == []
    {
      events := [];
    }
  }
}
