/**
 * The three route guards and the ownership test. The administrator is the user whose id is 1;
 * there is no role flag.
 */
module Access {
  import opened Wrappers
  import opened Records

  const AdminId: int := 1

  /** `mustBeAdmin`: the session's user id is 1. The anonymous visitor has no user id and fails. */
  predicate IsAdmin(who: Identity) {
    who.Some? && who.value.userid == AdminId
  }

  /**
   * `mustBeWriter`: some row of `writers` holds the session's username, or the session is the
   * administrator's. The anonymous visitor fails.
   */
  predicate IsWriter(who: Identity, writers: multiset<string>) {
    who.Some? && (who.value.username in writers || who.value.userid == AdminId)
  }

  /** `mustBeLoggedIn`: a row of `users` has the session's user id. The anonymous visitor fails. */
  predicate IsLoggedIn(who: Identity, users: map<int, User>) {
    who.Some? && who.value.userid in users
  }

  /** The ownership test of edit and delete: the acting user wrote the article, or is the administrator. */
  predicate MayMutate(who: Session, a: Article) {
    a.authorid == who.userid || who.userid == AdminId
  }

  /**
   * The anonymous visitor passes no guard; the administrator passes the writer guard whatever
   * `writers` holds; an article may be changed by its author and by the administrator, by
   * nobody else.
   */
  lemma GuardsAndOwnership(writers: multiset<string>, users: map<int, User>, s: Session, a: Article)
    ensures !IsAdmin(None) && !IsWriter(None, writers) && !IsLoggedIn(None, users)
    ensures IsAdmin(Some(s)) ==> IsWriter(Some(s), writers)
    ensures a.authorid == s.userid ==> MayMutate(s, a)
    ensures IsAdmin(Some(s)) ==> MayMutate(s, a)
    ensures MayMutate(s, a) ==> a.authorid == s.userid || IsAdmin(Some(s))
  {
  }
}
