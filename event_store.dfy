/**
 * The browser-local event store of src/lib/storage.ts: one storage key holds
 * the whole collection, and every operation loads the collection, changes it
 * and writes the whole collection back.
 *
 * The storage slot is a field of the class: `None` when nothing is stored
 * under the key, `Some(events)` after a write. The JSON encoding and decoding
 * on the way in and out are taken to be the identity, and the id that
 * `crypto.randomUUID` would generate is a parameter.
 */
module EventStore {
  import opened Wrappers

  /** A calendar event as the UI and the local store hold it. */
  datatype CalendarEvent = CalendarEvent(
    id: string,
    title: string,
    description: Option<string>,
    startDate: string,
    endDate: string,
    location: Option<string>)

  /** The input of `addEvent`: every field of an event except its id. */
  datatype EventDraft = EventDraft(
    title: string,
    description: Option<string>,
    startDate: string,
    endDate: string,
    location: Option<string>)

  /** `{ ...draft, id }`: the draft's fields with the id added. */
  function WithId(draft: EventDraft, id: string): (e: CalendarEvent)
    ensures e.id == id && DraftOf(e) == draft
  {
    CalendarEvent(id, draft.title, draft.description, draft.startDate, draft.endDate, draft.location)
  }

  /** The fields of an event other than its id. */
  function DraftOf(e: CalendarEvent): EventDraft
  {
    EventDraft(e.title, e.description, e.startDate, e.endDate, e.location)
  }

  predicate HasId(events: seq<CalendarEvent>, id: string)
  {
    exists i :: 0 <= i < |events| && events[i].id == id
  }

  /** No two stored events share an id. */
  predicate UniqueIds(events: seq<CalendarEvent>)
  {
    forall i, j :: 0 <= i < j < |events| ==> events[i].id != events[j].id
  }

  /**
   * `findIndex(e => e.id === id)`: the first index holding `id`, or -1 when
   * there is none.
   */
  function IndexOf(events: seq<CalendarEvent>, id: string): (r: int)
    ensures -1 <= r < |events|
    ensures r == -1 <==> !HasId(events, id)
    ensures r >= 0 ==> events[r].id == id && forall j :: 0 <= j < r ==> events[j].id != id
  {
    if events == [] then -1
    else if events[0].id == id then 0
    else
      var k := IndexOf(events[1..], id);
      if k == -1 then
        assert forall j :: 1 <= j < |events| ==> events[j] == events[1..][j - 1];
        -1
      else k + 1
  }

  /** The collection `updateEvent(event)` leaves behind. */
  function Updated(events: seq<CalendarEvent>, event: CalendarEvent): seq<CalendarEvent>
  {
    var i := IndexOf(events, event.id);
    if i == -1 then events else events[i := event]
  }

  /** `events.filter(e => e.id !== id)`. */
  function Without(events: seq<CalendarEvent>, id: string): seq<CalendarEvent>
  {
    if events == [] then []
    else if events[0].id == id then Without(events[1..], id)
    else [events[0]] + Without(events[1..], id)
  }

  /** The number of stored events carrying `id`. */
  function CountId(events: seq<CalendarEvent>, id: string): nat
  {
    if events == [] then 0
    else (if events[0].id == id then 1 else 0) + CountId(events[1..], id)
  }

  // ---------------------------------------------------------------------
  // updateEvent
  // ---------------------------------------------------------------------

  /**
   * When some event has the id, only the first such index is replaced; the
   * length and every other index are unchanged.
   */
  lemma UpdatedReplacesFirstMatch(events: seq<CalendarEvent>, event: CalendarEvent)
    requires HasId(events, event.id)
    ensures |Updated(events, event)| == |events|
    ensures var i := IndexOf(events, event.id);
      && Updated(events, event)[i] == event
      && (forall j :: 0 <= j < i ==> events[j].id != event.id)
      && (forall j :: 0 <= j < |events| && j != i ==> Updated(events, event)[j] == events[j])
  {
  }

  /** When no event has the id, the collection is untouched. */
  lemma UpdatedAbsent(events: seq<CalendarEvent>, event: CalendarEvent)
    requires !HasId(events, event.id)
    ensures Updated(events, event) == events
  {
  }

  /** Updating twice with the same event is updating once. */
  lemma UpdatedIdempotent(events: seq<CalendarEvent>, event: CalendarEvent)
    ensures Updated(Updated(events, event), event) == Updated(events, event)
  {
    var i := IndexOf(events, event.id);
    if i != -1 {
      var u := events[i := event];
      assert u[i].id == event.id;
      assert forall j :: 0 <= j < i ==> u[j].id != event.id;
      assert IndexOf(u, event.id) == i;
    }
  }

  /** Updating keeps the ids distinct, since the replaced event keeps its id. */
  lemma UpdatedKeepsUniqueIds(events: seq<CalendarEvent>, event: CalendarEvent)
    requires UniqueIds(events)
    ensures UniqueIds(Updated(events, event))
  {
  }

  // ---------------------------------------------------------------------
  // deleteEvent
  // ---------------------------------------------------------------------

  /** An event survives the filter exactly when it was stored and has another id. */
  lemma {:induction false} WithoutMembers(events: seq<CalendarEvent>, id: string, e: CalendarEvent)
    ensures e in Without(events, id) <==> e in events && e.id != id
  {
    if events != [] {
      WithoutMembers(events[1..], id, e);
      assert events == [events[0]] + events[1..];
    }
  }

  /** After deleting, no stored event has the id. */
  lemma WithoutRemovesId(events: seq<CalendarEvent>, id: string)
    ensures !HasId(Without(events, id), id)
  {
    var r := Without(events, id);
    forall i | 0 <= i < |r|
      ensures r[i].id != id
    {
      WithoutMembers(events, id, r[i]);
    }
  }

  /**
   * Filtering distributes over concatenation: the kept events stay in their
   * original relative order.
   */
  lemma {:induction false} WithoutAppend(a: seq<CalendarEvent>, b: seq<CalendarEvent>, id: string)
    ensures Without(a + b, id) == Without(a, id) + Without(b, id)
  {
    if a == [] {
      assert a + b == b;
    } else {
      assert (a + b)[0] == a[0];
      assert (a + b)[1..] == a[1..] + b;
      WithoutAppend(a[1..], b, id);
    }
  }

  /** Exactly the events with the id are removed, and no other. */
  lemma {:induction false} WithoutLength(events: seq<CalendarEvent>, id: string)
    ensures |Without(events, id)| == |events| - CountId(events, id)
  {
    if events != [] {
      WithoutLength(events[1..], id);
    }
  }

  /** Deleting an id that is not stored leaves the same collection. */
  lemma {:induction false} WithoutAbsent(events: seq<CalendarEvent>, id: string)
    requires !HasId(events, id)
    ensures Without(events, id) == events
  {
    if events != [] {
      assert events[0].id != id;
      assert !HasId(events[1..], id) by {
        forall j | 0 <= j < |events[1..]|
          ensures events[1..][j].id != id
        {
          assert events[1..][j] == events[j + 1];
        }
      }
      WithoutAbsent(events[1..], id);
      assert events == [events[0]] + events[1..];
    }
  }

  /** Deleting the same id twice is deleting it once. */
  lemma WithoutIdempotent(events: seq<CalendarEvent>, id: string)
    ensures Without(Without(events, id), id) == Without(events, id)
  {
    WithoutRemovesId(events, id);
    WithoutAbsent(Without(events, id), id);
  }

  /** Deleting keeps the remaining ids distinct. */
  lemma {:induction false} WithoutKeepsUniqueIds(events: seq<CalendarEvent>, id: string)
    requires UniqueIds(events)
    ensures UniqueIds(Without(events, id))
  {
    if events != [] {
      var rest := events[1..];
      assert UniqueIds(rest) by {
        forall i, j | 0 <= i < j < |rest|
          ensures rest[i].id != rest[j].id
        {
          assert rest[i] == events[i + 1] && rest[j] == events[j + 1];
        }
      }
      WithoutKeepsUniqueIds(rest, id);
      if events[0].id != id {
        var r := Without(rest, id);
        forall j | 0 <= j < |r|
          ensures r[j].id != events[0].id
        {
          WithoutMembers(rest, id, r[j]);
          var k :| 0 <= k < |rest| && rest[k] == r[j];
          assert rest[k] == events[k + 1];
        }
        assert Without(events, id) == [events[0]] + r;
      }
    }
  }

  // ---------------------------------------------------------------------
  // addEvent
  // ---------------------------------------------------------------------

  /** Appending an event whose id is fresh keeps the ids distinct. */
  lemma AppendFreshKeepsUniqueIds(events: seq<CalendarEvent>, e: CalendarEvent)
    requires UniqueIds(events) && !HasId(events, e.id)
    ensures UniqueIds(events + [e])
  {
    var r := events + [e];
    forall i, j | 0 <= i < j < |r|
      ensures r[i].id != r[j].id
    {
      if j == |events| {
        assert r[i] == events[i];
      }
    }
  }

  /** The stored collection: the slot of localStorage under `calendar_events`. */
  class LocalEventStore {
    var slot: Option<seq<CalendarEvent>>

    /** A store with nothing under the key yet. */
    constructor ()
      ensures slot == None
    {
      slot := None;
    }

    /** What `loadEvents` reads: the stored collection, or [] when nothing is stored. */
    function Stored(): seq<CalendarEvent>
      reads this
    {
      match slot
      case None => []
      case Some(events) => events
    }

    /** `loadEvents`: reads the slot; nothing stored reads as the empty collection. */
    method LoadEvents() returns (events: seq<CalendarEvent>)
      ensures slot == None ==> events == []
      ensures slot != None ==> events == slot.value
    {
      match slot
      case None =>
        events := [];
      case Some(stored) =>
        events := stored;
    }

    /** `saveEvents`: overwrites the slot with the whole collection. */
    method SaveEvents(events: seq<CalendarEvent>)
      modifies this
      ensures slot == Some(events)
      ensures Stored() == events
    {
      slot := Some(events);
    }

    /**
     * `addEvent`: appends the draft under the generated id `newId` and returns
     * the stored event.
     */
    method AddEvent(draft: EventDraft, newId: string) returns (created: CalendarEvent)
      modifies this
      ensures created.id == newId && DraftOf(created) == draft
      ensures slot == Some(old(Stored()) + [created])
      ensures |Stored()| == |old(Stored())| + 1
      ensures Stored()[..|old(Stored())|] == old(Stored())
      ensures Stored()[|Stored()| - 1] == created
      ensures UniqueIds(old(Stored())) && !HasId(old(Stored()), newId) ==> UniqueIds(Stored())
    {
      var events := LoadEvents();
      var newEvent := WithId(draft, newId);
      events := events + [newEvent];
      SaveEvents(events);
      created := newEvent;
      assert Stored()[..|old(Stored())|] == old(Stored());
      if UniqueIds(old(Stored())) && !HasId(old(Stored()), newId) {
        AppendFreshKeepsUniqueIds(old(Stored()), newEvent);
      }
    }

    /**
     * `updateEvent`: replaces the first event with `event.id` and writes the
     * collection back; without a match nothing is written.
     */
    method UpdateEvent(event: CalendarEvent)
      modifies this
      ensures HasId(old(Stored()), event.id) ==> slot == Some(Updated(old(Stored()), event))
      ensures !HasId(old(Stored()), event.id) ==> slot == old(slot)
      ensures |Stored()| == |old(Stored())|
      ensures UniqueIds(old(Stored())) ==> UniqueIds(Stored())
    {
      var events := LoadEvents();
      var index := FindIndex(events, event.id);
      if index != -1 {
        events := events[index := event];
        SaveEvents(events);
        if UniqueIds(old(Stored())) {
          UpdatedKeepsUniqueIds(old(Stored()), event);
        }
      }
    }

    /** `deleteEvent`: writes back the collection without the events carrying `id`. */
    method DeleteEvent(id: string)
      modifies this
      ensures slot == Some(Without(old(Stored()), id))
      ensures !HasId(Stored(), id)
      ensures !HasId(old(Stored()), id) ==> Stored() == old(Stored())
      ensures UniqueIds(old(Stored())) ==> UniqueIds(Stored())
    {
      var events := LoadEvents();
      var filtered := Without(events, id);
      SaveEvents(filtered);
      WithoutRemovesId(old(Stored()), id);
      if !HasId(old(Stored()), id) {
        WithoutAbsent(old(Stored()), id);
      }
      if UniqueIds(old(Stored())) {
        WithoutKeepsUniqueIds(old(Stored()), id);
      }
    }
  }

  /** `saveEvents(events)` followed by `loadEvents()` gives `events` back. */
  method SaveThenLoad(store: LocalEventStore, events: seq<CalendarEvent>) returns (loaded: seq<CalendarEvent>)
    modifies store
    ensures loaded == events
  {
    store.SaveEvents(events);
    loaded := store.LoadEvents();
  }

  /** `loadEvents()` on a store with nothing under the key gives the empty collection. */
  method LoadFresh() returns (loaded: seq<CalendarEvent>)
    ensures loaded == []
  {
    var store := new LocalEventStore();
    loaded := store.LoadEvents();
  }

  /** The search `Array.prototype.findIndex` performs, element by element from the front. */
  method FindIndex(events: seq<CalendarEvent>, id: string) returns (index: int)
    ensures index == IndexOf(events, id)
    ensures index == -1 <==> !HasId(events, id)
    ensures 0 <= index ==> index < |events| && events[index].id == id
    ensures forall j :: 0 <= j < |events| && (index == -1 || j < index) ==> events[j].id != id
  {
    var i := 0;
    while i < |events|
      invariant 0 <= i <= |events|
      invariant forall j :: 0 <= j < i ==> events[j].id != id
    {
      if events[i].id == id {
        return i;
      }
      i := i + 1;
    }
    return -1;
  }
}
