/** Club membership: the two lists joinClub and leaveClub keep in step, a
    club's `members` and a user's `joinedClubs`, and the invariant that ties
    them together. */
module Membership {
  import opened Common
  import opened ClubModel

  /** The part of a user account the club store touches. The rest of the
      account (name, e-mail, password hash) belongs to server/models/User.js,
      which is not part of this model. */
  datatype User = User(role: Role, joinedClubs: seq<Id>)

  /** No id occurs twice in `s`. */
  predicate NoDup(s: seq<Id>) {
    forall i, j :: 0 <= i < j < |s| ==> s[i] != s[j]
  }

  /** `s.filter(y => y !== x)`: every occurrence of `x` removed, the other
      entries kept. */
  function RemoveAll(s: seq<Id>, x: Id): (r: seq<Id>)
    ensures x !in r
    ensures forall y :: y != x ==> (y in r <==> y in s)
    ensures |r| <= |s|
    ensures x !in s ==> r == s
  {
    if s == [] then []
    else if s[0] == x then RemoveAll(s[1..], x)
    else [s[0]] + RemoveAll(s[1..], x)
  }

  /** The filter keeps the order of what remains: it distributes over
      concatenation. */
  lemma {:induction false} RemoveAllAppend(a: seq<Id>, b: seq<Id>, x: Id)
    ensures RemoveAll(a + b, x) == RemoveAll(a, x) + RemoveAll(b, x)
  {
    if a != [] {
      assert (a + b)[1..] == a[1..] + b;
      RemoveAllAppend(a[1..], b, x);
    } else {
      assert a + b == b;
    }
  }

  /** Removing entries from a list without duplicates leaves a list without
      duplicates. */
  lemma {:induction false} RemoveAllNoDup(s: seq<Id>, x: Id)
    requires NoDup(s)
    ensures NoDup(RemoveAll(s, x))
  {
    if s != [] {
      RemoveAllNoDup(s[1..], x);
      if s[0] != x {
        assert s[0] !in s[1..];
      }
    }
  }

  /** joinClub's two pushes. */
  function AddMember(c: Club, u: Id): (r: Club)
    ensures |r.members| == |c.members| + 1
    ensures r.members[..|c.members|] == c.members && r.members[|c.members|..] == [u]
    ensures r.(members := c.members) == c
  {
    c.(members := c.members + [u])
  }

  function AddJoined(user: User, c: Id): (r: User)
    ensures |r.joinedClubs| == |user.joinedClubs| + 1
    ensures r.joinedClubs[..|user.joinedClubs|] == user.joinedClubs && r.joinedClubs[|user.joinedClubs|..] == [c]
    ensures r.role == user.role
  {
    user.(joinedClubs := user.joinedClubs + [c])
  }

  /** leaveClub's two filters. */
  function DropMember(c: Club, u: Id): (r: Club)
    ensures u !in r.members
    ensures forall v :: v != u ==> (v in r.members <==> v in c.members)
    ensures r.(members := c.members) == c
  {
    c.(members := RemoveAll(c.members, u))
  }

  function DropJoined(user: User, c: Id): (r: User)
    ensures c !in r.joinedClubs
    ensures forall d :: d != c ==> (d in r.joinedClubs <==> d in user.joinedClubs)
    ensures r.role == user.role
  {
    user.(joinedClubs := RemoveAll(user.joinedClubs, c))
  }

  /** The membership invariant over the stored clubs and users: a user is
      in a club's `members` exactly when the club is in the user's
      `joinedClubs`, no club lists a member twice, and every member is a
      user. */
  ghost predicate Consistent(clubs: map<Id, Club>, users: map<Id, User>) {
    && (forall c, u :: c in clubs && u in users ==>
          (u in clubs[c].members <==> c in users[u].joinedClubs))
    && (forall c :: c in clubs ==> NoDup(clubs[c].members))
    && (forall c, u :: c in clubs && u in clubs[c].members ==> u in users)
  }

  /** A successful join keeps the invariant and leaves the user listed
      exactly once, at the end of the club's members. */
  lemma JoinKeepsConsistent(clubs: map<Id, Club>, users: map<Id, User>, c: Id, u: Id)
    requires Consistent(clubs, users)
    requires c in clubs && u in users && u !in clubs[c].members
    ensures Consistent(clubs[c := AddMember(clubs[c], u)], users[u := AddJoined(users[u], c)])
    ensures multiset(AddMember(clubs[c], u).members)[u] == 1
  {
    var clubs', users' := clubs[c := AddMember(clubs[c], u)], users[u := AddJoined(users[u], c)];
    forall d, v | d in clubs' && v in users'
      ensures v in clubs'[d].members <==> d in users'[v].joinedClubs
    {
      if d == c && v != u {
        assert v in clubs'[d].members <==> v in clubs[d].members;
      } else if d != c && v == u {
        assert d in users'[v].joinedClubs <==> d in users[v].joinedClubs;
      }
    }
    var m := clubs[c].members;
    assert NoDup(m + [u]);
    assert u !in multiset(m);
  }

  /** A successful leave keeps the invariant and removes the user from the
      club's members entirely. */
  lemma LeaveKeepsConsistent(clubs: map<Id, Club>, users: map<Id, User>, c: Id, u: Id)
    requires Consistent(clubs, users)
    requires c in clubs && u in users && u in clubs[c].members
    ensures Consistent(clubs[c := DropMember(clubs[c], u)], users[u := DropJoined(users[u], c)])
    ensures u !in DropMember(clubs[c], u).members
    ensures c !in DropJoined(users[u], c).joinedClubs
  {
    var clubs', users' := clubs[c := DropMember(clubs[c], u)], users[u := DropJoined(users[u], c)];
    RemoveAllNoDup(clubs[c].members, u);
    forall d, v | d in clubs' && v in users'
      ensures v in clubs'[d].members <==> d in users'[v].joinedClubs
    {
      if d == c && v != u {
        assert v in clubs'[d].members <==> v in clubs[d].members;
      } else if d != c && v == u {
        assert d in users'[v].joinedClubs <==> d in users[v].joinedClubs;
      }
    }
  }

  /** Appending an id that was absent and then filtering it out gives back
      the original list. */
  lemma AppendThenRemove(s: seq<Id>, x: Id)
    requires x !in s
    ensures RemoveAll(s + [x], x) == s
  {
    RemoveAllAppend(s, [x], x);
    assert RemoveAll([x], x) == [];
  }

  /** Joining and then leaving the same club restores both lists exactly. */
  lemma JoinThenLeaveRestores(clubs: map<Id, Club>, users: map<Id, User>, c: Id, u: Id)
    requires Consistent(clubs, users)
    requires c in clubs && u in users && u !in clubs[c].members
    ensures var clubs', users' := clubs[c := AddMember(clubs[c], u)], users[u := AddJoined(users[u], c)];
      && clubs'[c := DropMember(clubs'[c], u)] == clubs
      && users'[u := DropJoined(users'[u], c)] == users
  {
    var club, user := clubs[c], users[u];
    assert c !in user.joinedClubs;
    AppendThenRemove(club.members, u);
    AppendThenRemove(user.joinedClubs, c);
    assert DropMember(AddMember(club, u), u) == club;
    assert DropJoined(AddJoined(user, c), c) == user;
  }

  /** Removing a club record (deleteClub) keeps the invariant, although the
      members' `joinedClubs` still name it. */
  lemma RemoveClubKeepsConsistent(clubs: map<Id, Club>, users: map<Id, User>, c: Id)
    requires Consistent(clubs, users)
    ensures Consistent(clubs - {c}, users)
  {
  }

  /** Changing a club's other fields (updateClub) keeps the invariant. */
  lemma SameRosterKeepsConsistent(clubs: map<Id, Club>, users: map<Id, User>, c: Id, club: Club)
    requires Consistent(clubs, users)
    requires c in clubs && club.members == clubs[c].members
    ensures Consistent(clubs[c := club], users)
  {
    var clubs' := clubs[c := club];
    assert forall d :: d in clubs' ==> clubs'[d].members == clubs[d].members;
  }

  /** Adding a club with no members, under an id no user has joined
      (createClub), keeps the invariant. */
  lemma NewClubKeepsConsistent(clubs: map<Id, Club>, users: map<Id, User>, c: Id, club: Club)
    requires Consistent(clubs, users)
    requires c !in clubs && club.members == []
    requires forall u :: u in users ==> c !in users[u].joinedClubs
    ensures Consistent(clubs[c := club], users)
  {
  }
}
