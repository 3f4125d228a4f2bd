/** The announcement document (server/models/Announcement.js). */
module AnnouncementModel {
  import opened Common

  /** An announcement document. The club and author references are ids, so
      a document cannot lack them. */
  datatype Announcement = Announcement(
    clubId: Id,
    title: string,
    content: string,
    authorId: Id)

  /** The schema's `required` validators: title and content must be
      non-empty (the club and author references are present by
      construction). */
  predicate IsValid(a: Announcement) {
    a.title != "" && a.content != ""
  }

  /** The document `new Announcement({...})` builds: the author is stamped
      with the acting user. */
  function NewAnnouncement(clubId: Id, title: Option<string>, content: Option<string>, author: Id): (a: Announcement)
    ensures a.clubId == clubId && a.authorId == author
    ensures IsValid(a) <==> Truthy(title) && Truthy(content)
  {
    Announcement(clubId, ValueOf(title), ValueOf(content), author)
  }

  /** The announcements a query `{ clubId }` returns. */
  function AnnouncementsOf(posts: map<Id, Announcement>, clubId: Id): (r: map<Id, Announcement>)
    ensures forall id :: id in r <==> id in posts && posts[id].clubId == clubId
    ensures forall id :: id in r ==> r[id] == posts[id]
  {
    map id | id in posts && posts[id].clubId == clubId :: posts[id]
  }

  /** Storing a new announcement adds it to its own club's listing only. */
  lemma AnnouncementsOfInsert(posts: map<Id, Announcement>, id: Id, a: Announcement, clubId: Id)
    requires id !in posts
    ensures AnnouncementsOf(posts[id := a], clubId) ==
      if a.clubId == clubId then AnnouncementsOf(posts, clubId)[id := a] else AnnouncementsOf(posts, clubId)
  {
    var before, after := AnnouncementsOf(posts, clubId), AnnouncementsOf(posts[id := a], clubId);
    if a.clubId == clubId {
      assert after.Keys == before.Keys + {id};
    } else {
      assert after.Keys == before.Keys;
    }
  }

  /** Removing an announcement removes it from every listing and nothing
      else. */
  lemma AnnouncementsOfRemove(posts: map<Id, Announcement>, id: Id, clubId: Id)
    ensures AnnouncementsOf(posts - {id}, clubId) == AnnouncementsOf(posts, clubId) - {id}
  {
    assert AnnouncementsOf(posts - {id}, clubId).Keys == AnnouncementsOf(posts, clubId).Keys - {id};
  }
}
