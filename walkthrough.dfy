/** A client of the store that follows one session through the controllers
    and shows what their contracts alone guarantee at each step: an admin
    creates "Chess Club"; a student joins, joins again, and a second student
    who never joined tries to leave; the owner schedules an event, a
    different admin tries to edit it, the owner edits it; the student
    leaves. */
module Walkthrough {
  import opened Common
  import opened Membership
  import opened ClubModel
  import opened EventModel
  import opened ClubStore

  const Owner: Id := 1
  const Member: Id := 2
  const Bystander: Id := 3
  const OtherAdmin: Id := 4

  function Accounts(): map<Id, User> {
    map[Owner := User(Admin, []), Member := User(Student, []),
        Bystander := User(Student, []), OtherAdmin := User(Admin, [])]
  }

  /** The owner creates the club: it is stored with the owner of record and
      no members. */
  method OpenClub() returns (store: Store, c: Id, st: Status)
    ensures fresh(store) && store.Valid() && st == Created
    ensures store.IsAdmin(Owner) && store.IsAdmin(OtherAdmin) && Bystander in store.users
    ensures Member in store.users && store.users[Member].joinedClubs == []
    ensures c in store.clubs && store.clubs[c].adminId == Owner && store.clubs[c].members == []
  {
    store := new Store(Accounts());
    var chess := ClubFields(Some("Chess Club"), Some("Weekly games"), Some("Games"), None);
    assert "Chess Club"[0] == 'C';
    var id;
    st, id := store.CreateClub(Owner, chess);
    c := id.value;
  }

  /** The member's first join succeeds and puts each side on the other's
      list. */
  method JoinStep(store: Store, c: Id) returns (st: Status)
    requires store.Valid()
    requires Member in store.users && store.users[Member].joinedClubs == []
    requires c in store.clubs && store.clubs[c].members == []
    modifies store
    ensures store.Valid() && st == Ok
    ensures c in store.clubs && store.clubs[c].adminId == old(store.clubs[c].adminId)
    ensures store.clubs[c].members == [Member]
    ensures Member in store.users && store.users[Member].joinedClubs == [c]
    ensures store.users.Keys == old(store.users.Keys)
    ensures forall u :: u in store.users ==> store.users[u].role == old(store.users[u].role)
  {
    st := store.JoinClub(Member, c);
  }

  /** A second join by the member and a leave by a non-member are both
      refused with 400 and change nothing. */
  method RefusedSteps(store: Store, c: Id) returns (again: Status, stranger: Status)
    requires store.Valid() && Bystander in store.users
    requires c in store.clubs && store.clubs[c].members == [Member]
    modifies store
    ensures store.Valid() && again == BadRequest && stranger == BadRequest
    ensures store.clubs == old(store.clubs) && store.users == old(store.users)
  {
    again := store.JoinClub(Member, c);
    stranger := store.LeaveClub(Bystander, c);
  }

  /** The owner schedules an event (201); another admin's edit is refused
      with 401; the owner's edit replaces only the supplied field. */
  method EventSteps(store: Store, c: Id) returns (outcomes: seq<Status>, e: Id)
    requires store.Valid() && c in store.clubs && store.clubs[c].adminId == Owner
    requires store.IsAdmin(Owner) && store.IsAdmin(OtherAdmin)
    modifies store
    ensures store.Valid() && outcomes == [Created, Unauthorized, Ok]
    ensures store.clubs == old(store.clubs) && store.users == old(store.users)
    ensures e in store.events && store.events[e].clubId == c
    ensures store.events[e].title == "Opening night" && store.events[e].time == "19:00"
  {
    var night := EventFields(Some("Opening night"), Some("Blitz games"), Some(Date(0)), Some("18:00"), Some("Room 4"), None);
    var scheduled, event := store.CreateEvent(Owner, Some(c), night);
    e := event.value;
    var later := EventFields(None, None, None, Some("19:00"), None, None);
    var intruder := store.UpdateEvent(OtherAdmin, e, later);
    var edited := store.UpdateEvent(Owner, e, later);
    outcomes := [scheduled, intruder, edited];
  }

  /** The member leaves: both lists are empty again. */
  method LeaveStep(store: Store, c: Id) returns (st: Status)
    requires store.Valid() && c in store.clubs && Member in store.users
    requires store.clubs[c].members == [Member] && store.users[Member].joinedClubs == [c]
    modifies store
    ensures store.Valid() && st == Ok
    ensures c in store.clubs && store.clubs[c].members == []
    ensures Member in store.users && store.users[Member].joinedClubs == []
  {
    st := store.LeaveClub(Member, c);
  }

  method ChessClubSession() returns (outcomes: seq<Status>)
    ensures outcomes == [Created, Ok, BadRequest, BadRequest, Created, Unauthorized, Ok, Ok]
  {
    var store, c, created := OpenClub();
    var joined := JoinStep(store, c);
    var again, stranger := RefusedSteps(store, c);
    var events, e := EventSteps(store, c);
    var left := LeaveStep(store, c);
    outcomes := [created, joined, again, stranger, events[0], events[1], events[2], left];
  }
}
