/** The club document (server/models/Club.js) and the field assignments the
    club controller makes on it. */
module ClubModel {
  import opened Common
  import opened Text

  /** A club document. `adminId` is the owner of record; `members` holds user
      ids in the order they joined. */
  datatype Club = Club(
    name: string,
    description: string,
    category: string,
    banner: string,
    adminId: Id,
    members: seq<Id>)

  /** The club fields a request body may carry, for create and for update. */
  datatype ClubFields = ClubFields(
    name: Option<string>,
    description: Option<string>,
    category: Option<string>,
    banner: Option<string>)

  /** The schema's `required` validators: name, description and category
      must be non-empty (`adminId` is always present by construction). */
  predicate IsValid(c: Club) {
    c.name != "" && c.description != "" && c.category != ""
  }

  /** The owner-of-record check every club-scoped write performs. */
  predicate OwnedBy(c: Club, actor: Id) {
    c.adminId == actor
  }

  /** The document `new Club({...})` builds: the name goes through the
      `trim` setter, an absent banner takes the schema default, the creator
      becomes the owner, and `members` starts as the empty array. */
  function NewClub(f: ClubFields, admin: Id): (c: Club)
    ensures OwnedBy(c, admin) && c.members == []
    ensures IsTrimmed(c.name)
    ensures f.banner.None? ==> c.banner == PlaceholderBanner
    ensures f.banner.Some? ==> c.banner == f.banner.value
    ensures IsValid(c) <==>
      f.name.Some? && !IsBlank(f.name.value) && Truthy(f.description) && Truthy(f.category)
  {
    TrimIsTrimmed(ValueOf(f.name));
    TrimEmptyIffBlank(ValueOf(f.name));
    Club(
      Trim(ValueOf(f.name)),
      ValueOf(f.description),
      ValueOf(f.category),
      if f.banner.Some? then f.banner.value else PlaceholderBanner,
      admin,
      [])
  }

  /** The four `field = supplied || field` assignments of updateClub; the
      name assignment goes through the `trim` setter again. */
  function Patch(c: Club, f: ClubFields): (r: Club)
    ensures r.adminId == c.adminId && r.members == c.members
    ensures r.description == (if Truthy(f.description) then f.description.value else c.description)
    ensures r.category == (if Truthy(f.category) then f.category.value else c.category)
    ensures r.banner == (if Truthy(f.banner) then f.banner.value else c.banner)
  {
    c.(name := Trim(Or(f.name, c.name)),
       description := Or(f.description, c.description),
       category := Or(f.category, c.category),
       banner := Or(f.banner, c.banner))
  }

  /** updateClub replaces a field only with a truthy supplied value, keeps
      the old value otherwise, and never touches the owner or the members. */
  lemma PatchFields(c: Club, f: ClubFields)
    requires IsTrimmed(c.name)
    ensures var r := Patch(c, f);
      && r.adminId == c.adminId && r.members == c.members
      && r.name == (if Truthy(f.name) then Trim(f.name.value) else c.name)
      && r.description == (if Truthy(f.description) then f.description.value else c.description)
      && r.category == (if Truthy(f.category) then f.category.value else c.category)
      && r.banner == (if Truthy(f.banner) then f.banner.value else c.banner)
      && IsTrimmed(r.name)
  {
    var n := Or(f.name, c.name);
    assert Patch(c, f).name == Trim(n);
    TrimIsTrimmed(n);
    if !Truthy(f.name) {
      TrimIdempotent(c.name);
    }
  }

  /** A valid club stays valid after updateClub, except when the new name is
      truthy but made only of whitespace: trimming then empties it and the
      `required` validator rejects the save. */
  lemma PatchKeepsValid(c: Club, f: ClubFields)
    requires IsValid(c) && IsTrimmed(c.name)
    ensures IsValid(Patch(c, f)) <==> !(Truthy(f.name) && IsBlank(f.name.value))
  {
    PatchFields(c, f);
    if Truthy(f.name) {
      TrimEmptyIffBlank(f.name.value);
    }
  }
}
