/** The event document (server/models/Event.js) and the field assignments the
    event controller makes on it. */
module EventModel {
  import opened Common

  /** A calendar date as Mongoose stores a `Date` path. */
  datatype Date = Date(epochMillis: int)

  /** An event document. `date` is `None` while the path is unset; `time` is
      free text and nothing relates it to `date`. */
  datatype Event = Event(
    clubId: Id,
    title: string,
    description: string,
    date: Option<Date>,
    time: string,
    venue: string,
    banner: string)

  /** The event fields a request body may carry. A falsy date (absent or an
      empty string) is `None`. */
  datatype EventFields = EventFields(
    title: Option<string>,
    description: Option<string>,
    date: Option<Date>,
    time: Option<string>,
    venue: Option<string>,
    banner: Option<string>)

  /** The schema's `required` validators: club, title, description, date,
      time and venue must all be present (the club reference is present by
      construction). */
  predicate IsValid(e: Event) {
    e.title != "" && e.description != "" && e.date.Some? && e.time != "" && e.venue != ""
  }

  /** The document `new Event({...})` builds for the given club; an absent
      banner takes the schema default. */
  function NewEvent(clubId: Id, f: EventFields): (e: Event)
    ensures e.clubId == clubId && e.date == f.date
    ensures f.banner.None? ==> e.banner == PlaceholderBanner
    ensures f.banner.Some? ==> e.banner == f.banner.value
    ensures IsValid(e) <==>
      Truthy(f.title) && Truthy(f.description) && f.date.Some? && Truthy(f.time) && Truthy(f.venue)
  {
    Event(
      clubId,
      ValueOf(f.title),
      ValueOf(f.description),
      f.date,
      ValueOf(f.time),
      ValueOf(f.venue),
      if f.banner.Some? then f.banner.value else PlaceholderBanner)
  }

  /** `date || event.date`. */
  function OrDate(supplied: Option<Date>, current: Option<Date>): (r: Option<Date>)
    ensures supplied.Some? ==> r == supplied
    ensures supplied.None? ==> r == current
    ensures current.Some? ==> r.Some?
  {
    if supplied.Some? then supplied else current
  }

  /** The six `field = supplied || field` assignments of updateEvent. */
  function Patch(e: Event, f: EventFields): (r: Event)
    ensures r.clubId == e.clubId
  {
    e.(title := Or(f.title, e.title),
       description := Or(f.description, e.description),
       date := OrDate(f.date, e.date),
       time := Or(f.time, e.time),
       venue := Or(f.venue, e.venue),
       banner := Or(f.banner, e.banner))
  }

  /** updateEvent replaces a field only with a truthy supplied value, keeps
      the old value otherwise, never changes the parent club, and keeps a
      valid event valid. */
  lemma PatchKeepsValid(e: Event, f: EventFields)
    ensures var r := Patch(e, f);
      && r.clubId == e.clubId
      && r.title == (if Truthy(f.title) then f.title.value else e.title)
      && r.description == (if Truthy(f.description) then f.description.value else e.description)
      && r.date == (if f.date.Some? then f.date else e.date)
      && r.time == (if Truthy(f.time) then f.time.value else e.time)
      && r.venue == (if Truthy(f.venue) then f.venue.value else e.venue)
      && r.banner == (if Truthy(f.banner) then f.banner.value else e.banner)
      && (IsValid(e) ==> IsValid(r))
  {
  }

  // The listing below mirrors AnnouncementModel.AnnouncementsOf on purpose:
  // the two controllers run the same `{ clubId }` query on two collections.

  /** The events a query `{ clubId }` returns. */
  function EventsOf(events: map<Id, Event>, clubId: Id): (r: map<Id, Event>)
    ensures forall id :: id in r <==> id in events && events[id].clubId == clubId
    ensures forall id :: id in r ==> r[id] == events[id]
  {
    map id | id in events && events[id].clubId == clubId :: events[id]
  }

  /** Storing a new event adds it to its own club's listing and to no other. */
  lemma EventsOfInsert(events: map<Id, Event>, id: Id, e: Event, clubId: Id)
    requires id !in events
    ensures EventsOf(events[id := e], clubId) ==
      if e.clubId == clubId then EventsOf(events, clubId)[id := e] else EventsOf(events, clubId)
  {
    var before, after := EventsOf(events, clubId), EventsOf(events[id := e], clubId);
    if e.clubId == clubId {
      assert after.Keys == before.Keys + {id};
    } else {
      assert after.Keys == before.Keys;
    }
  }

  /** Removing an event removes it from every listing and nothing else. */
  lemma EventsOfRemove(events: map<Id, Event>, id: Id, clubId: Id)
    ensures EventsOf(events - {id}, clubId) == EventsOf(events, clubId) - {id}
  {
    assert EventsOf(events - {id}, clubId).Keys == EventsOf(events, clubId).Keys - {id};
  }
}
