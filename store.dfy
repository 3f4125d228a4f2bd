/** The club store behind the three controllers (clubController.js,
    eventController.js, announcementController.js): four collections and one
    method per controller action. Each action runs as one atomic step, checks
    "not found" before "not authorized", and writes nothing unless it
    answers with success. */
module ClubStore {
  import opened Common
  import opened Text
  import opened Membership
  import ClubModel
  import EventModel
  import AnnouncementModel

  /** Every stored club passes validation, has a trimmed name and an id
      below `next`. */
  ghost predicate ClubsStored(clubs: map<Id, ClubModel.Club>, next: Id) {
    forall id :: id in clubs ==> id < next && ClubModel.IsValid(clubs[id]) && IsTrimmed(clubs[id].name)
  }

  /** Every stored event passes validation; it and its club reference are
      ids below `next`. */
  ghost predicate EventsStored(events: map<Id, EventModel.Event>, next: Id) {
    forall id :: id in events ==> id < next && events[id].clubId < next && EventModel.IsValid(events[id])
  }

  /** Every stored announcement passes validation; it and its club
      reference are ids below `next`. */
  ghost predicate AnnouncementsStored(posts: map<Id, AnnouncementModel.Announcement>, next: Id) {
    forall id :: id in posts ==> id < next && posts[id].clubId < next && AnnouncementModel.IsValid(posts[id])
  }

  /** Every club id in a user's `joinedClubs` is below `next`. */
  ghost predicate JoinedIssued(users: map<Id, User>, next: Id) {
    forall u, c :: u in users && c in users[u].joinedClubs ==> c < next
  }

  class Store {
    var users: map<Id, User>
    var clubs: map<Id, ClubModel.Club>
    var events: map<Id, EventModel.Event>
    var announcements: map<Id, AnnouncementModel.Announcement>
    /** The next id the database will hand out; every id it has issued for
        a club, event or announcement is smaller. */
    var nextId: Id

    /** The store invariant: membership is consistent, every stored
        document passes its schema's validation (and a club's name is
        trimmed), and every club id anywhere, dangling or not, was issued
        by the store. */
    ghost predicate Valid()
      reads this
    {
      && Consistent(clubs, users)
      && ClubsStored(clubs, nextId)
      && EventsStored(events, nextId)
      && AnnouncementsStored(announcements, nextId)
      && JoinedIssued(users, nextId)
    }

    /** `id` has been issued by the store (it may since have been deleted). */
    predicate Issued(id: Id)
      reads this
    {
      id < nextId
    }

    /** The route gate of the admin-only actions: the acting user is an
        authenticated account whose role is admin. */
    predicate IsAdmin(actor: Id)
      reads this
    {
      actor in users && users[actor].role == Admin
    }

    /** A store with the given accounts and no clubs, events or
        announcements. */
    constructor (accounts: map<Id, User>)
      requires forall u :: u in accounts ==> accounts[u].joinedClubs == []
      ensures Valid()
      ensures users == accounts && clubs == map[] && events == map[] && announcements == map[]
    {
      users, clubs, events, announcements := accounts, map[], map[], map[];
      nextId := 0;
    }

    // ----- clubs -----

    /** createClub: stores a new club owned by the acting user with no
        members (201); a document that fails validation answers 500 and
        stores nothing. */
    method CreateClub(actor: Id, f: ClubModel.ClubFields) returns (st: Status, id: Option<Id>)
      requires Valid() && IsAdmin(actor)
      modifies this
      ensures Valid()
      ensures var club := ClubModel.NewClub(f, actor);
        if ClubModel.IsValid(club) then
          && st == Created && id.Some? && id.value !in old(clubs) && !old(Issued(id.value))
          && clubs == old(clubs)[id.value := club]
        else
          st == ServerError && id == None && clubs == old(clubs)
      ensures users == old(users) && events == old(events) && announcements == old(announcements)
      ensures nextId == if st == Created then old(nextId) + 1 else old(nextId)
      ensures st == Created ==> id == Some(old(nextId))
    {
      var club := ClubModel.NewClub(f, actor);
      if !ClubModel.IsValid(club) {
        return ServerError, None;
      }
      NewClubKeepsConsistent(clubs, users, nextId, club);
      assert IsTrimmed(club.name);
      clubs := clubs[nextId := club];
      st, id := Created, Some(nextId);
      nextId := nextId + 1;
    }

    /** getClubs: every stored club, each a valid document. */
    function GetClubs(): (r: map<Id, ClubModel.Club>)
      reads this
      requires Valid()
      ensures r.Keys == clubs.Keys
      ensures forall id :: id in r ==> r[id] == clubs[id] && ClubModel.IsValid(r[id])
    {
      clubs
    }

    /** getClubById: the stored club, or `None` for the 404 answer. */
    function GetClubById(clubId: Id): (r: Option<ClubModel.Club>)
      reads this
      requires Valid()
      ensures r.None? <==> clubId !in clubs
      ensures r.Some? ==> r.value == clubs[clubId] && ClubModel.IsValid(r.value)
    {
      if clubId in clubs then Some(clubs[clubId]) else None
    }

    /** updateClub: 404 for an unknown club, then 401 for anyone but its
        owner; otherwise each truthy field replaces the stored one, and the
        save answers 500 when the patched club fails validation (which
        ClubModel.PatchKeepsValid shows happens exactly when the new name is
        blank). */
    method UpdateClub(actor: Id, clubId: Id, f: ClubModel.ClubFields) returns (st: Status)
      requires Valid() && IsAdmin(actor)
      modifies this
      ensures Valid()
      ensures clubId !in old(clubs) ==> st == NotFound
      ensures clubId in old(clubs) && !ClubModel.OwnedBy(old(clubs)[clubId], actor) ==> st == Unauthorized
      ensures clubId in old(clubs) && ClubModel.OwnedBy(old(clubs)[clubId], actor) ==>
        st == if ClubModel.IsValid(ClubModel.Patch(old(clubs)[clubId], f)) then Ok else ServerError
      ensures clubs == if st == Ok then old(clubs)[clubId := ClubModel.Patch(old(clubs)[clubId], f)] else old(clubs)
      ensures users == old(users) && events == old(events) && announcements == old(announcements)
      ensures nextId == old(nextId)
    {
      if clubId !in clubs {
        return NotFound;
      }
      var club := clubs[clubId];
      if !ClubModel.OwnedBy(club, actor) {
        return Unauthorized;
      }
      var updated := ClubModel.Patch(club, f);
      if !ClubModel.IsValid(updated) {
        return ServerError;
      }
      ClubModel.PatchFields(club, f);
      SameRosterKeepsConsistent(clubs, users, clubId, updated);
      clubs := clubs[clubId := updated];
      st := Ok;
    }

    /** deleteClub: 404, then 401, then the club record alone is removed;
        its events, its announcements and the members' `joinedClubs` entries
        are left dangling. */
    method DeleteClub(actor: Id, clubId: Id) returns (st: Status)
      requires Valid() && IsAdmin(actor)
      modifies this
      ensures Valid()
      ensures st == if clubId !in old(clubs) then NotFound
                    else if !ClubModel.OwnedBy(old(clubs)[clubId], actor) then Unauthorized
                    else Ok
      ensures clubs == if st == Ok then old(clubs) - {clubId} else old(clubs)
      ensures users == old(users) && events == old(events) && announcements == old(announcements)
      ensures nextId == old(nextId)
    {
      if clubId !in clubs {
        return NotFound;
      }
      if !ClubModel.OwnedBy(clubs[clubId], actor) {
        return Unauthorized;
      }
      RemoveClubKeepsConsistent(clubs, users, clubId);
      clubs := clubs - {clubId};
      st := Ok;
    }

    /** joinClub: 404 when the club or the user is missing, 400 when the
        user is already a member; otherwise the user id is appended to the
        club's members and the club id to the user's joinedClubs. */
    method JoinClub(actor: Id, clubId: Id) returns (st: Status)
      requires Valid()
      modifies this
      ensures Valid()
      ensures st == if clubId !in old(clubs) || actor !in old(users) then NotFound
                    else if actor in old(clubs)[clubId].members then BadRequest
                    else Ok
      ensures st == Ok ==>
        && clubs == old(clubs)[clubId := AddMember(old(clubs)[clubId], actor)]
        && users == old(users)[actor := AddJoined(old(users)[actor], clubId)]
      ensures st != Ok ==> clubs == old(clubs) && users == old(users)
      ensures events == old(events) && announcements == old(announcements) && nextId == old(nextId)
    {
      if clubId !in clubs || actor !in users {
        return NotFound;
      }
      if actor in clubs[clubId].members {
        return BadRequest;
      }
      JoinKeepsConsistent(clubs, users, clubId, actor);
      clubs := clubs[clubId := AddMember(clubs[clubId], actor)];
      users := users[actor := AddJoined(users[actor], clubId)];
      st := Ok;
    }

    /** leaveClub: 404 when the club or the user is missing, 400 when the
        user is not a member; otherwise every occurrence of the user is
        filtered out of the members and of the club out of joinedClubs. */
    method LeaveClub(actor: Id, clubId: Id) returns (st: Status)
      requires Valid()
      modifies this
      ensures Valid()
      ensures st == if clubId !in old(clubs) || actor !in old(users) then NotFound
                    else if actor !in old(clubs)[clubId].members then BadRequest
                    else Ok
      ensures st == Ok ==>
        && clubs == old(clubs)[clubId := DropMember(old(clubs)[clubId], actor)]
        && users == old(users)[actor := DropJoined(old(users)[actor], clubId)]
      ensures st != Ok ==> clubs == old(clubs) && users == old(users)
      ensures events == old(events) && announcements == old(announcements) && nextId == old(nextId)
    {
      if clubId !in clubs || actor !in users {
        return NotFound;
      }
      if actor !in clubs[clubId].members {
        return BadRequest;
      }
      LeaveKeepsConsistent(clubs, users, clubId, actor);
      clubs := clubs[clubId := DropMember(clubs[clubId], actor)];
      users := users[actor := DropJoined(users[actor], clubId)];
      st := Ok;
    }

    // ----- events -----

    /** createEvent: 404 for a missing or unknown club, then 401 for anyone
        but the club's owner; otherwise one new event for that club (201),
        or 500 with nothing stored when a required field is missing. */
    method CreateEvent(actor: Id, clubId: Option<Id>, f: EventModel.EventFields)
      returns (st: Status, id: Option<Id>)
      requires Valid() && IsAdmin(actor)
      modifies this
      ensures Valid()
      ensures clubId.None? || clubId.value !in old(clubs) ==> st == NotFound
      ensures clubId.Some? && clubId.value in old(clubs) && !ClubModel.OwnedBy(old(clubs)[clubId.value], actor) ==>
        st == Unauthorized
      ensures clubId.Some? && clubId.value in old(clubs) && ClubModel.OwnedBy(old(clubs)[clubId.value], actor) ==>
        st == if EventModel.IsValid(EventModel.NewEvent(clubId.value, f)) then Created else ServerError
      ensures st == Created ==>
        && clubId.Some? && id.Some? && id.value !in old(events) && !old(Issued(id.value))
        && events == old(events)[id.value := EventModel.NewEvent(clubId.value, f)]
      ensures st != Created ==> id == None && events == old(events)
      ensures clubs == old(clubs) && users == old(users) && announcements == old(announcements)
      ensures nextId == if st == Created then old(nextId) + 1 else old(nextId)
      ensures st == Created ==> id == Some(old(nextId))
    {
      if clubId.None? || clubId.value !in clubs {
        return NotFound, None;
      }
      if !ClubModel.OwnedBy(clubs[clubId.value], actor) {
        return Unauthorized, None;
      }
      var event := EventModel.NewEvent(clubId.value, f);
      if !EventModel.IsValid(event) {
        return ServerError, None;
      }
      events := events[nextId := event];
      st, id := Created, Some(nextId);
      nextId := nextId + 1;
    }

    /** getEventsByClub: the events whose stored club reference is
        `clubId`. A club the store never issued has none; a deleted club
        keeps its events. */
    function GetEventsByClub(clubId: Id): (r: map<Id, EventModel.Event>)
      reads this
      requires Valid()
      ensures r == EventModel.EventsOf(events, clubId)
      ensures !Issued(clubId) ==> r == map[]
    {
      EventModel.EventsOf(events, clubId)
    }

    /** getEvents: every stored event, each a valid document. */
    function GetEvents(): (r: map<Id, EventModel.Event>)
      reads this
      requires Valid()
      ensures r.Keys == events.Keys
      ensures forall id :: id in r ==> r[id] == events[id] && EventModel.IsValid(r[id])
    {
      events
    }

    /** getEventById: the stored event, or `None` for the 404 answer. */
    function GetEventById(eventId: Id): (r: Option<EventModel.Event>)
      reads this
      requires Valid()
      ensures r.None? <==> eventId !in events
      ensures r.Some? ==> r.value == events[eventId] && EventModel.IsValid(r.value)
    {
      if eventId in events then Some(events[eventId]) else None
    }

    /** updateEvent: 404 for an unknown event; the owner check reads the
        club the stored event points at (500 if that club is gone); then 401
        for anyone but its owner; otherwise each truthy field replaces the
        stored one, and the save always passes validation. */
    method UpdateEvent(actor: Id, eventId: Id, f: EventModel.EventFields) returns (st: Status)
      requires Valid() && IsAdmin(actor)
      modifies this
      ensures Valid()
      ensures st == if eventId !in old(events) then NotFound
                    else if old(events)[eventId].clubId !in old(clubs) then ServerError
                    else if !ClubModel.OwnedBy(old(clubs)[old(events)[eventId].clubId], actor) then Unauthorized
                    else Ok
      ensures events == if st == Ok then old(events)[eventId := EventModel.Patch(old(events)[eventId], f)] else old(events)
      ensures clubs == old(clubs) && users == old(users) && announcements == old(announcements)
      ensures nextId == old(nextId)
    {
      if eventId !in events {
        return NotFound;
      }
      var event := events[eventId];
      if event.clubId !in clubs {
        return ServerError;
      }
      if !ClubModel.OwnedBy(clubs[event.clubId], actor) {
        return Unauthorized;
      }
      EventModel.PatchKeepsValid(event, f);
      events := events[eventId := EventModel.Patch(event, f)];
      st := Ok;
    }

    /** deleteEvent: 404, then the owner check through the event's own club
        (500 if that club is gone), then 401; otherwise only that event is
        removed. */
    method DeleteEvent(actor: Id, eventId: Id) returns (st: Status)
      requires Valid() && IsAdmin(actor)
      modifies this
      ensures Valid()
      ensures st == if eventId !in old(events) then NotFound
                    else if old(events)[eventId].clubId !in old(clubs) then ServerError
                    else if !ClubModel.OwnedBy(old(clubs)[old(events)[eventId].clubId], actor) then Unauthorized
                    else Ok
      ensures events == if st == Ok then old(events) - {eventId} else old(events)
      ensures clubs == old(clubs) && users == old(users) && announcements == old(announcements)
      ensures nextId == old(nextId)
    {
      if eventId !in events {
        return NotFound;
      }
      var clubId := events[eventId].clubId;
      if clubId !in clubs {
        return ServerError;
      }
      if !ClubModel.OwnedBy(clubs[clubId], actor) {
        return Unauthorized;
      }
      events := events - {eventId};
      st := Ok;
    }

    // ----- announcements -----

    /** createAnnouncement: 404 for a missing or unknown club, then 401 for
        anyone but its owner; otherwise one new announcement whose author is
        the acting user, hence the club's owner (201), or 500 with nothing
        stored when the title or the content is missing. */
    method CreateAnnouncement(actor: Id, clubId: Option<Id>, title: Option<string>, content: Option<string>)
      returns (st: Status, id: Option<Id>)
      requires Valid() && IsAdmin(actor)
      modifies this
      ensures Valid()
      ensures clubId.None? || clubId.value !in old(clubs) ==> st == NotFound
      ensures clubId.Some? && clubId.value in old(clubs) && !ClubModel.OwnedBy(old(clubs)[clubId.value], actor) ==>
        st == Unauthorized
      ensures clubId.Some? && clubId.value in old(clubs) && ClubModel.OwnedBy(old(clubs)[clubId.value], actor) ==>
        st == if Truthy(title) && Truthy(content) then Created else ServerError
      ensures st == Created ==>
        && clubId.Some? && id.Some? && id.value !in old(announcements) && !old(Issued(id.value))
        && announcements == old(announcements)[id.value := AnnouncementModel.NewAnnouncement(clubId.value, title, content, actor)]
        && clubId.value in clubs && announcements[id.value].authorId == clubs[clubId.value].adminId
      ensures st != Created ==> id == None && announcements == old(announcements)
      ensures clubs == old(clubs) && users == old(users) && events == old(events)
      ensures nextId == if st == Created then old(nextId) + 1 else old(nextId)
      ensures st == Created ==> id == Some(old(nextId))
    {
      if clubId.None? || clubId.value !in clubs {
        return NotFound, None;
      }
      if !ClubModel.OwnedBy(clubs[clubId.value], actor) {
        return Unauthorized, None;
      }
      var post := AnnouncementModel.NewAnnouncement(clubId.value, title, content, actor);
      if !AnnouncementModel.IsValid(post) {
        return ServerError, None;
      }
      announcements := announcements[nextId := post];
      st, id := Created, Some(nextId);
      nextId := nextId + 1;
    }

    /** getAnnouncementsByClub: the announcements whose stored club
        reference is `clubId`. A club the store never issued has none. */
    function GetAnnouncementsByClub(clubId: Id): (r: map<Id, AnnouncementModel.Announcement>)
      reads this
      requires Valid()
      ensures r == AnnouncementModel.AnnouncementsOf(announcements, clubId)
      ensures !Issued(clubId) ==> r == map[]
    {
      AnnouncementModel.AnnouncementsOf(announcements, clubId)
    }

    /** deleteAnnouncement: 404, then the owner check through the
        announcement's own club (500 if that club is gone), then 401;
        otherwise only that announcement is removed. */
    method DeleteAnnouncement(actor: Id, postId: Id) returns (st: Status)
      requires Valid() && IsAdmin(actor)
      modifies this
      ensures Valid()
      ensures st == if postId !in old(announcements) then NotFound
                    else if old(announcements)[postId].clubId !in old(clubs) then ServerError
                    else if !ClubModel.OwnedBy(old(clubs)[old(announcements)[postId].clubId], actor) then Unauthorized
                    else Ok
      ensures announcements == if st == Ok then old(announcements) - {postId} else old(announcements)
      ensures clubs == old(clubs) && users == old(users) && events == old(events)
      ensures nextId == old(nextId)
    {
      if postId !in announcements {
        return NotFound;
      }
      var clubId := announcements[postId].clubId;
      if clubId !in clubs {
        return ServerError;
      }
      if !ClubModel.OwnedBy(clubs[clubId], actor) {
        return Unauthorized;
      }
      announcements := announcements - {postId};
      st := Ok;
    }
  }
}
