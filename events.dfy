/**
  The event part of the service: listing the caller's events and building
  the record that creation appends.
 */
module Events {
  import opened Results
  import opened Decimal
  import opened Records

  const DefaultEventType: string := "Secret Santa"
  const DraftStatus: string := "draft"

  /** `f"evt_{n}"`: the number can be read back after the prefix. */
  function EventId(n: nat): (id: string)
    ensures |id| > 4 && id[..4] == "evt_" && AllDigits(id[4..]) && ParseNat(id[4..]) == n
  {
    var id := "evt_" + NatToString(n);
    assert id[..4] == "evt_" && id[4..] == NatToString(n);
    assert ParseNat(id[4..]) == n by { ParseNatToString(n); }
    id
  }

  /** Different positions give different event ids. */
  lemma EventIdInjective(a: nat, b: nat)
    ensures EventId(a) == EventId(b) <==> a == b
  {
    if a != b {
      assert ParseNat(EventId(a)[4..]) != ParseNat(EventId(b)[4..]);
    }
  }

  /** `list_events`: the stored events whose owner is the caller, in store order. */
  function ListEvents(events: seq<Event>, user: User): (r: seq<Event>)
    ensures forall e :: e in r ==> e in events && e.ownerId == user.id
    ensures |r| <= |events|
  {
    if events == [] then []
    else
      assert forall e :: e in events ==> e == events[0] || e in events[1..];
      (if events[0].ownerId == user.id then [events[0]] else []) + ListEvents(events[1..], user)
  }

  /** Every stored event of the caller is listed. */
  lemma {:induction false} ListEventsComplete(events: seq<Event>, user: User, e: Event)
    requires e in events && e.ownerId == user.id
    ensures e in ListEvents(events, user)
  {
    if events[0] != e {
      ListEventsComplete(events[1..], user, e);
    }
  }

  /** `a` can be obtained from `b` by deleting elements. */
  predicate IsSubsequence<T(==)>(a: seq<T>, b: seq<T>)
    decreases |b|
  {
    a == [] || (b != [] && ((a[0] == b[0] && IsSubsequence(a[1..], b[1..])) || IsSubsequence(a, b[1..])))
  }

  /** The listing keeps the store order: it is the store with the other owners' events deleted. */
  lemma {:induction false} ListEventsInStoreOrder(events: seq<Event>, user: User)
    ensures IsSubsequence(ListEvents(events, user), events)
  {
    if events != [] {
      ListEventsInStoreOrder(events[1..], user);
      var rest := ListEvents(events[1..], user);
      if events[0].ownerId == user.id {
        assert ListEvents(events, user) == [events[0]] + rest;
        assert ([events[0]] + rest)[1..] == rest;
      } else {
        assert ListEvents(events, user) == rest;
      }
    }
  }

  /** Appending an event adds it to the end of its owner's listing and to no other listing. */
  lemma {:induction false} ListEventsAppend(events: seq<Event>, e: Event, user: User)
    ensures ListEvents(events + [e], user) == ListEvents(events, user) + (if e.ownerId == user.id then [e] else [])
  {
    if events == [] {
      assert [] + [e] == [e];
    } else {
      assert (events + [e])[1..] == events[1..] + [e];
      ListEventsAppend(events[1..], e, user);
    }
  }

  /**
    The record `create_event` builds: id `evt_<count + 1>`, owned by the
    caller, status `draft`; an absent or empty event type becomes
    `Secret Santa`, an absent wishlist flag true and an absent address flag
    false; the other fields are taken from the request.
   */
  function NewEvent(events: seq<Event>, payload: EventCreate, user: User): (e: Event)
    ensures e.id == EventId(|events| + 1) && e.ownerId == user.id && e.status == DraftStatus
    ensures e.name == payload.name && e.date == payload.date && e.budget == payload.budget
    ensures e.participants == payload.participants && e.customMessage == payload.customMessage
    ensures e.eventType.Some? && e.eventType.value != ""
    ensures payload.eventType.Some? && payload.eventType.value != "" ==> e.eventType == payload.eventType
    ensures payload.eventType == None || payload.eventType == Some("") ==> e.eventType == Some(DefaultEventType)
    ensures e.allowWishlists == Some(payload.allowWishlists != Some(false))
    ensures e.collectAddresses == Some(payload.collectAddresses == Some(true))
  {
    Event(
      EventId(|events| + 1),
      payload.name,
      payload.date,
      payload.budget,
      payload.participants,
      user.id,
      DraftStatus,
      Some(if payload.eventType.Some? && payload.eventType.value != "" then payload.eventType.value else DefaultEventType),
      Some(if payload.allowWishlists.Some? then payload.allowWishlists.value else true),
      Some(if payload.collectAddresses.Some? then payload.collectAddresses.value else false),
      payload.customMessage)
  }

  /** A request carrying only a name and a date yields the documented defaults. */
  lemma DefaultsApplied(events: seq<Event>, name: string, date: string, user: User)
    ensures var e := NewEvent(events, EventCreateWithDefaults(name, date), user);
            && e.participants == [] && e.eventType == Some(DefaultEventType)
            && e.allowWishlists == Some(true) && e.collectAddresses == Some(false)
            && e.budget == None && e.customMessage == None
  {
  }

  /** The event at position i has id `evt_<i + 1>`. */
  predicate PositionalIds(events: seq<Event>) {
    forall i :: 0 <= i < |events| ==> events[i].id == EventId(i + 1)
  }

  /** Creating an event keeps the ids positional. */
  lemma CreateEventKeepsIds(events: seq<Event>, payload: EventCreate, user: User)
    requires PositionalIds(events)
    ensures PositionalIds(events + [NewEvent(events, payload, user)])
  {
    var e := NewEvent(events, payload, user);
    forall i | 0 <= i < |events + [e]|
      ensures (events + [e])[i].id == EventId(i + 1)
    {
      if i < |events| {
        assert (events + [e])[i] == events[i];
      }
    }
  }

  /** A created event is listed, at the end, for its owner and for nobody else. */
  lemma CreateEventListing(events: seq<Event>, payload: EventCreate, user: User, other: User)
    ensures var e := NewEvent(events, payload, user);
            && ListEvents(events + [e], user) == ListEvents(events, user) + [e]
            && (other.id != user.id ==> ListEvents(events + [e], other) == ListEvents(events, other))
  {
    var e := NewEvent(events, payload, user);
    ListEventsAppend(events, e, user);
    ListEventsAppend(events, e, other);
  }

  /** With positional ids no two events share an id. */
  lemma PositionalIdsUnique(events: seq<Event>, i: nat, j: nat)
    requires PositionalIds(events) && i < j < |events|
    ensures events[i].id != events[j].id
  {
    EventIdInjective(i + 1, j + 1);
  }
}
