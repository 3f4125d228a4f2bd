# Campus clubs: the club store

This project models the server side of a campus-clubs web application: the
store behind its three Express controllers (clubs, events, announcements)
and the three Mongoose schemas those controllers write. The store holds four
collections: user accounts, clubs, events and announcements. The model is a
class `ClubStore.Store` whose maps from ids to records are reassigned by one
method per controller action. Each method answers with the HTTP status the
controller sends (`Common.Status`: 200, 201, 400, 401, 404 or 500).

What is proved:

- The membership invariant (`Membership.Consistent`) holds across every
  action. A user is in a club's `members` exactly when the club is in the
  user's `joinedClubs`, no club lists a member twice, and every member is an
  account.
- Every stored document passes its schema's `required` validators, and every
  stored club name is trimmed.
- Each action checks in a fixed order: 404 first, then 401 (with 500 when a
  stored event or announcement points at a deleted club), then the write.
- The partial updates (`field = supplied || field`) replace only truthy
  fields and never touch the owner, the roster or the parent club. A valid
  event stays valid. A valid club stays valid unless the new name is made
  only of whitespace.
- A join followed by a leave restores both lists exactly.

Modules:

- `Common`: ids, `Option`, roles, statuses and JavaScript's `||` on request
  fields.
- `Text`: `String.prototype.trim` over the ECMAScript whitespace set.
- `ClubModel`, `EventModel`, `AnnouncementModel`: the three schemas.
- `Membership`: the two lists and their invariant.
- `ClubStore`: the store.
- `Walkthrough`: one session through the store.

Request bodies are modelled as `Option` fields, with `None` for an absent
field. JavaScript counts an absent field and `""` as falsy; `Common.Truthy`
captures that. A required string the request leaves unset is stored as `""`,
which the `required` validator rejects just like an absent path. Fresh ids
for clubs, events and announcements come from a counter (`nextId`).

## Model

| member | source | states |
|---|---|---|
| Common.Or | server/controllers/clubController.js:69-72 | `supplied \|\| current`: the supplied value when it is truthy, the current one otherwise; a non-empty current value gives a non-empty result |
| Common.ValueOf | server/controllers/clubController.js:11-17 | the stored value of a request field is non-empty exactly when the field is truthy |
| Text.TrimStart | server/models/Club.js:7 | the result is no longer than the input and does not start with whitespace |
| Text.TrimEnd | server/models/Club.js:7 | the result is no longer than the input and does not end with whitespace |
| Text.Trim | server/models/Club.js:7 | the `trim: true` setter: TrimEnd after TrimStart, never longer than its input; TrimSlice and TrimIsTrimmed pin it down |
| Text.TrimStartSplit | server/models/Club.js:7 | trimming the start keeps a suffix of the input and drops only whitespace |
| Text.TrimEndSplit | server/models/Club.js:7 | trimming the end keeps a prefix of the input and drops only whitespace |
| Text.TrimIsTrimmed | server/models/Club.js:7 | neither end of a trimmed name is whitespace |
| Text.TrimSlice | server/models/Club.js:7 | a trimmed name is a contiguous slice of the input with only whitespace on either side |
| Text.TrimIdempotent | server/models/Club.js:7 | trimming an already trimmed name changes nothing, so trimming twice equals trimming once |
| Text.TrimEmptyIffBlank | server/models/Club.js:4-8 | trimming gives the empty string exactly when the input is all whitespace |
| ClubModel.IsValid | server/models/Club.js:4-25 | the `required` validators of the club schema: name, description and category are non-empty (the owner reference is present by construction) |
| ClubModel.OwnedBy | server/controllers/clubController.js:65 | the owner-of-record comparison `club.adminId == actor` every club-scoped write makes (also clubController.js:93, eventController.js:17, 90, 120, announcementController.js:17, 56) |
| ClubModel.NewClub | server/models/Club.js:1-33 | a new club is owned by the creator, has no members and a trimmed name, and its banner is the placeholder URL when none is supplied and the supplied value otherwise; it is valid exactly when the name has a non-whitespace character and description and category are truthy |
| ClubModel.Patch | server/controllers/clubController.js:69-72 | updateClub's four `field = supplied \|\| field` assignments, the name through the trim setter; the owner and the members are unchanged and description, category and banner take the supplied value exactly when it is truthy |
| ClubModel.PatchFields | server/controllers/clubController.js:69-72 | updateClub replaces each of name (trimmed), description, category and banner only with a truthy supplied value, keeps the old value otherwise, never changes `adminId` or `members`, and leaves the name trimmed |
| ClubModel.PatchKeepsValid | server/models/Club.js:4-16 | a valid club stays valid after updateClub exactly when the supplied name is not a truthy string of only whitespace |
| EventModel.IsValid | server/models/Event.js:4-28 | the `required` validators of the event schema: title, description, time and venue non-empty and a date present (the club reference is present by construction) |
| EventModel.NewEvent | server/models/Event.js:1-36 | a new event carries the supplied club reference and date, and the banner defaults to the placeholder URL; it is valid exactly when title, description, time and venue are truthy and a date is present |
| EventModel.OrDate | server/controllers/eventController.js:96 | `date \|\| event.date`: the supplied date when present, the stored one otherwise; a stored date is never lost |
| EventModel.Patch | server/controllers/eventController.js:94-99 | updateEvent's six `\|\|` assignments; the parent club reference is unchanged (the full field-by-field result is EventModel.PatchKeepsValid) |
| EventModel.PatchKeepsValid | server/controllers/eventController.js:94-99 | updateEvent replaces each of the six fields only with a truthy supplied value, keeps the old value otherwise, never changes `clubId`, and keeps a valid event valid |
| EventModel.EventsOf | server/controllers/eventController.js:41-44 | the query `{ clubId }` returns exactly the events whose stored club reference is `clubId`, unchanged |
| EventModel.EventsOfInsert | server/controllers/eventController.js:21-32 | storing a new event adds it to its own club's listing and to no other |
| EventModel.EventsOfRemove | server/controllers/eventController.js:124-125 | removing an event removes it from every listing and removes nothing else |
| AnnouncementModel.IsValid | server/models/Announcement.js:4-21 | the `required` validators of the announcement schema: title and content non-empty (the club and author references are present by construction) |
| AnnouncementModel.NewAnnouncement | server/models/Announcement.js:1-25 | a new announcement carries the club reference and its author; it is valid exactly when title and content are truthy |
| AnnouncementModel.AnnouncementsOf | server/controllers/announcementController.js:38-41 | the query `{ clubId }` returns exactly the announcements whose stored club reference is `clubId`, unchanged |
| AnnouncementModel.AnnouncementsOfInsert | server/controllers/announcementController.js:21-29 | storing a new announcement adds it to its own club's listing and to no other |
| AnnouncementModel.AnnouncementsOfRemove | server/controllers/announcementController.js:60-61 | removing an announcement removes it from every listing and removes nothing else |
| Membership.RemoveAll | server/controllers/clubController.js:147-148 | the filter removes every occurrence of the id, keeps every other id, never grows the list, and leaves a list without the id unchanged |
| Membership.RemoveAllAppend | server/controllers/clubController.js:147-148 | the filter keeps the order of the remaining ids: it distributes over concatenation |
| Membership.RemoveAllNoDup | server/controllers/clubController.js:147 | filtering a list without duplicates leaves a list without duplicates |
| Membership.AppendThenRemove | server/controllers/clubController.js:119-120 | pushing an absent id and then filtering it out gives back the original list |
| Membership.AddMember | server/controllers/clubController.js:119 | `club.members.push(user._id)`: the old members followed by the user, every other field unchanged |
| Membership.AddJoined | server/controllers/clubController.js:120 | `user.joinedClubs.push(club._id)`: the old list followed by the club, the role unchanged |
| Membership.DropMember | server/controllers/clubController.js:147 | the members filter: the user is gone, every other member stays, every other field unchanged |
| Membership.DropJoined | server/controllers/clubController.js:148 | the joinedClubs filter: the club is gone, every other club stays, the role unchanged |
| Membership.JoinKeepsConsistent | server/controllers/clubController.js:119-120 | a join keeps the membership invariant and leaves the user listed exactly once in `members` |
| Membership.LeaveKeepsConsistent | server/controllers/clubController.js:147-148 | a leave keeps the membership invariant and takes the user out of `members` and the club out of `joinedClubs` |
| Membership.JoinThenLeaveRestores | server/controllers/clubController.js:119-120 | a join followed by a leave on the same club and user restores the club and the user exactly |
| Membership.RemoveClubKeepsConsistent | server/controllers/clubController.js:97 | removing a club record keeps the membership invariant although the users' `joinedClubs` still name it |
| Membership.SameRosterKeepsConsistent | server/controllers/clubController.js:69-74 | changing a club's fields other than `members` keeps the membership invariant |
| Membership.NewClubKeepsConsistent | server/controllers/clubController.js:11-19 | adding a club with no members under an id no user has joined keeps the membership invariant |
| ClubStore.Store.CreateClub | server/controllers/clubController.js:7-24 | a valid new club is stored under a fresh id with 201, owned by the acting admin and without members; an invalid one answers 500 and stores nothing; nothing else changes |
| ClubStore.Store.GetClubs | server/controllers/clubController.js:29-36 | returns every stored club, each a valid document |
| ClubStore.Store.GetClubById | server/controllers/clubController.js:41-52 | returns the stored club, or nothing (404) exactly when the id is unknown; a returned club is valid |
| ClubStore.Store.UpdateClub | server/controllers/clubController.js:57-82 | 404 for an unknown club, then 401 for anyone but its owner; for the owner, 200 with the patched club stored when it passes validation, else 500 with nothing changed; other collections unchanged |
| ClubStore.Store.DeleteClub | server/controllers/clubController.js:87-105 | 404, then 401, then 200 with only the club record removed; events, announcements and users unchanged |
| ClubStore.Store.JoinClub | server/controllers/clubController.js:110-132 | 404 when the club or the user is missing, 400 when already a member, else 200 with the user appended to `members` and the club to `joinedClubs`; a refusal changes nothing; the store invariant is kept |
| ClubStore.Store.LeaveClub | server/controllers/clubController.js:137-160 | 404 when the club or the user is missing, 400 when not a member, else 200 with the user filtered out of `members` and the club out of `joinedClubs`; a refusal changes nothing; the store invariant is kept |
| ClubStore.Store.CreateEvent | server/controllers/eventController.js:7-36 | 404 for a missing or unknown club, then 401 for a non-owner, then 201 with exactly one new event built from the request under a fresh id, or 500 with nothing stored when it fails validation; clubs, users and announcements unchanged |
| ClubStore.Store.GetEventsByClub | server/controllers/eventController.js:41-48 | returns the events of that club, and none for a club id the store never issued (not 404) |
| ClubStore.Store.GetEvents | server/controllers/eventController.js:54-61 | returns every stored event, each a valid document |
| ClubStore.Store.GetEventById | server/controllers/eventController.js:66-77 | returns the stored event, or nothing (404) exactly when the id is unknown |
| ClubStore.Store.UpdateEvent | server/controllers/eventController.js:82-109 | 404 for an unknown event, 500 when its stored club is gone, 401 unless the actor owns that club, else 200 with the patched event stored; nothing else changes |
| ClubStore.Store.DeleteEvent | server/controllers/eventController.js:114-132 | 404, then 500 for a dangling club, then 401 against the stored club's owner, else 200 with only that event removed |
| ClubStore.Store.CreateAnnouncement | server/controllers/announcementController.js:7-33 | 404 for a missing or unknown club, then 401 for a non-owner, then 201 with one new announcement whose author is the acting user and therefore the club's owner, or 500 with nothing stored when title or content is falsy |
| ClubStore.Store.GetAnnouncementsByClub | server/controllers/announcementController.js:38-45 | returns the announcements of that club, and none for a club id the store never issued |
| ClubStore.Store.DeleteAnnouncement | server/controllers/announcementController.js:50-68 | 404, then 500 for a dangling club, then 401 against the stored club's owner, else 200 with only that announcement removed |
| Walkthrough.ChessClubSession | server/controllers/clubController.js:110-160 | a session that runs createClub (clubController.js:7-24), joinClub and leaveClub, createEvent (eventController.js:7-36) and updateEvent (eventController.js:82-109) answers 201 (create club), 200 (join), 400 (join again), 400 (leave by a non-member), 201 (create event), 401 (edit by another admin), 200 (owner's edit), 200 (leave) |

## Left out

- The rest of a user account (name, e-mail, password) lives in server/models/User.js, which is not part of this model. A user here is a role and a `joinedClubs` list.
- The set of accounts is fixed when the store is constructed: registering or deleting a user later is not modelled.
- The `protect` and `admin` middleware is not part of this model. The acting user is a method parameter. The admin-only routes require an account with the admin role. Join and leave require only `Valid()`, and for an actor with no account they answer 404, as `User.findById` would.
- `populate` replaces stored references with display names. The read methods return the raw records instead.
- joinClub and leaveClub each make two separate `save()` calls. Each action is modelled as one atomic step, so a partial failure between the saves and concurrent requests are not modelled.
- Schema timestamps (`createdAt`, `updatedAt`) are not modelled.
- Mongoose casting is not modelled. A malformed id or date string raises a cast error, which the controllers answer with 500. Ids here are well-formed and a date is either present or absent.
- JSON `null` and non-string values in request bodies are not modelled. Each field is absent or a string, the request's date included.
- A falsy request date (absent or `""`) is `None` in `EventFields`, so updateEvent keeps the old date and createEvent leaves the path unset. A non-empty date string is truthy and is cast to a `Date`; a failed cast is left out as above.
- `time` stays free text beside `date`, and no relation between the two is enforced or modelled.
- The order of `find` results is not modelled. Listings are maps from id to record.
- A database failure on `find` or `save` is not modelled. The catch-all 500 is modelled only where the code itself raises it: validation failures, and a stored event or announcement whose club was deleted.
- ClubStore.Store.DeleteClub, ClubStore.Store.DeleteEvent and ClubStore.Store.DeleteAnnouncement assume a Mongoose version (6 or earlier) in which `Document#remove` deletes the document. From Mongoose 7 on that method no longer exists, the call throws, the catch block answers 500 and nothing is deleted; the model does not cover that version.
- deleteClub does not cascade. Its events, its announcements and the members' `joinedClubs` entries keep pointing at the deleted club, and the model keeps them that way.
- The routes let admins join and leave clubs too, so the model does not restrict join and leave to students.
