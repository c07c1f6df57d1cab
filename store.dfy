/**
 * The blog's store and the handlers that change it. Each table is a field; each POST handler is a
 * method whose `modifies` clause names exactly the tables it writes, so every other table is left
 * as it was. A handler that is turned away writes nothing.
 */
module Blog {
  import opened Wrappers
  import opened JsString
  import opened Records
  import opened Access
  import opened Articles
  import opened Accounts
  import opened Likes

  class Store {
    /** `users`, by id */
    var users: map<int, User>
    /** the UNIQUE index on `users.username` */
    var userIdByName: map<string, int>
    /** the id the next user row gets (AUTOINCREMENT: ids are never reused) */
    var nextUserId: int
    /** `writers`: one row per insertion, so a username may appear several times */
    var writers: multiset<string>
    /** `articles`, by id */
    var articles: map<int, Article>
    /** the id the next article row gets (AUTOINCREMENT: ids are never reused) */
    var nextArticleId: int
    /** the per-user liked tables, by username */
    var liked: map<string, set<int>>
    /** the row with id 1 of `adminVisualName`, if one was ever put there */
    var adminVisualName: Option<string>
    /** `articlewishes`, in insertion order */
    var wishes: seq<Wish>

    ghost predicate Valid()
      reads this
    {
      1 <= nextUserId && 1 <= nextArticleId &&
      IndexedUsers(users, userIdByName) &&
      (forall id :: id in users ==> ValidUsername(users[id].username)) &&
      (forall id :: id in users ==> 1 <= id < nextUserId) &&
      (forall id :: id in articles ==> 1 <= id < nextArticleId) &&
      liked.Keys == userIdByName.Keys
    }

    /**
     * The like counts agree with the liked tables: each article's count is the number of users
     * whose liked set holds its id, and no liked set holds an id not handed out yet.
     */
    ghost predicate LikesConsistent()
      reads this
    {
      CountsMatch(articles, liked, nextArticleId)
    }

    /** A freshly created database: every table empty. */
    constructor ()
      ensures Valid() && LikesConsistent()
      ensures users == map[] && userIdByName == map[] && nextUserId == 1
      ensures writers == multiset{} && articles == map[] && nextArticleId == 1
      ensures liked == map[] && adminVisualName == None && wishes == []
    {
      users, userIdByName, nextUserId := map[], map[], 1;
      writers := multiset{};
      articles, nextArticleId := map[], 1;
      liked := map[];
      adminVisualName := None;
      wishes := [];
    }

    /** POST /articlewish-input: an empty wish is refused; a missing email is stored as "-". */
    method SubmitWish(email: string, wish: string) returns (r: Reply<()>)
      requires Valid()
      modifies this`wishes
      ensures Valid()
      ensures wish == [] ==> r == Rejected([EmptyWish]) && wishes == old(wishes)
      ensures wish != [] ==> r == Done(()) && wishes == old(wishes) + [Wish(if email == [] then "-" else email, wish)]
    {
      if wish == [] {
        return Rejected([EmptyWish]);
      }
      var stored := if email == [] then "-" else email;
      wishes := wishes + [Wish(stored, wish)];
      r := Done(());
    }

    /**
     * POST /register: on accepted fields and an unused username, a new user row with the next id,
     * the trimmed email and username and the hashed password, an empty liked table, and the
     * session of the new user. A taken username is reported and writes nothing.
     */
    method Register(email: string, username: string, password: string, salt: Salt) returns (r: Reply<Session>)
      requires Valid()
      modifies this`users, this`userIdByName, this`nextUserId, this`liked
      ensures Valid()
      ensures CheckRegistration(email, username, password).Failure? ==>
        r == Rejected([CheckRegistration(email, username, password).error]) && unchanged(this)
      ensures CheckRegistration(email, username, password).Success? &&
              CheckRegistration(email, username, password).value.username in old(userIdByName) ==>
        r == Rejected([UsernameTaken]) && unchanged(this)
      ensures CheckRegistration(email, username, password).Success? &&
              CheckRegistration(email, username, password).value.username !in old(userIdByName) ==>
        var f := CheckRegistration(email, username, password).value;
        var id := old(nextUserId);
        && r == Done(Session(id, f.username))
        && users == old(users)[id := User(f.email, f.username, Hash(password, salt))]
        && userIdByName == old(userIdByName)[f.username := id]
        && nextUserId == id + 1
        && liked == old(liked)[f.username := {}]
      ensures old(LikesConsistent()) ==> LikesConsistent()
    {
      var check := CheckRegistration(email, username, password);
      if check.Failure? {
        return Rejected([check.error]);
      }
      var f := check.value;
      if f.username in userIdByName {
        return Rejected([UsernameTaken]);
      }
      var id := nextUserId;
      AddUserKeepsIndex(users, userIdByName, id, User(f.email, f.username, Hash(password, salt)));
      if LikesConsistent() {
        CountsAfterNewUser(articles, liked, nextArticleId, f.username);
      }
      users := users[id := User(f.email, f.username, Hash(password, salt))];
      userIdByName := userIdByName[f.username := id];
      nextUserId := id + 1;
      liked := liked[f.username := {}];
      r := Done(Session(id, f.username));
    }

    /**
     * POST /change-email: a blank new address is refused; otherwise the trimmed address replaces the
     * email of the row whose id the session carries, if there is one. The handler has no guard:
     * without a matching row nothing changes and the request still goes through.
     */
    method ChangeEmail(who: Identity, newEmail: string) returns (r: Reply<()>)
      requires Valid()
      modifies this`users
      ensures Valid()
      ensures Trim(newEmail) == [] ==> r == Rejected([EmptyNewEmail]) && users == old(users)
      ensures Trim(newEmail) != [] ==>
        && r == Done(())
        && users == if who.Some? && who.value.userid in old(users)
                    then old(users)[who.value.userid := old(users)[who.value.userid].(email := Trim(newEmail))]
                    else old(users)
    {
      var address := Trim(newEmail);
      if address == [] {
        return Rejected([EmptyNewEmail]);
      }
      if who.Some? && who.value.userid in users {
        var id := who.value.userid;
        UpdateUserKeepsIndex(users, userIdByName, id, users[id].(email := address));
        users := users[id := users[id].(email := address)];
      }
      r := Done(());
    }

    /**
     * POST /change-password: the two entries must be equal and not empty (white space alone is
     * accepted); then a fresh hash replaces the password of the session's row, if there is one.
     */
    method ChangePassword(who: Identity, newPassword: string, confirmation: string, salt: Salt) returns (r: Reply<()>)
      requires Valid()
      modifies this`users
      ensures Valid()
      ensures newPassword != confirmation ==> r == Rejected([PasswordsDiffer]) && users == old(users)
      ensures newPassword == confirmation && newPassword == [] ==> r == Rejected([EmptyNewPassword]) && users == old(users)
      ensures newPassword == confirmation && newPassword != [] ==>
        && r == Done(())
        && users == if who.Some? && who.value.userid in old(users)
                    then old(users)[who.value.userid := old(users)[who.value.userid].(password := Hash(newPassword, salt))]
                    else old(users)
    {
      if newPassword != confirmation {
        return Rejected([PasswordsDiffer]);
      }
      if newPassword == [] {
        return Rejected([EmptyNewPassword]);
      }
      if who.Some? && who.value.userid in users {
        var id := who.value.userid;
        UpdateUserKeepsIndex(users, userIdByName, id, users[id].(password := Hash(newPassword, salt)));
        users := users[id := users[id].(password := Hash(newPassword, salt))];
      }
      r := Done(());
    }

    /**
     * POST /like-article/:id, behind `mustBeLoggedIn`: toggles `id` in the acting user's liked
     * table and moves the article's count the same way. Whether the article exists is not
     * checked: for a missing article only the liked table changes. A session whose username has
     * no liked table makes the first statement fail, and nothing is written.
     */
    method LikeArticle(who: Identity, id: int) returns (r: Reply<()>)
      requires Valid()
      modifies this`articles, this`liked
      ensures Valid()
      ensures !IsLoggedIn(who, users) ==> r == Redirected(NotLoggedIn) && unchanged(this)
      ensures IsLoggedIn(who, users) && who.value.username !in old(liked) ==> r == Failed && unchanged(this)
      ensures IsLoggedIn(who, users) && who.value.username in old(liked) ==>
        var was := old(liked)[who.value.username];
        && r == Done(())
        && liked == old(liked)[who.value.username := Toggle(was, id)]
        && articles == if id in old(articles)
                       then old(articles)[id := old(articles)[id].(likes := old(articles)[id].likes + LikeDelta(was, id))]
                       else old(articles)
      ensures old(LikesConsistent()) && id < old(nextArticleId) ==> LikesConsistent()
    {
      if !IsLoggedIn(who, users) {
        return Redirected(NotLoggedIn);
      }
      var u := who.value.username;
      if u !in liked {
        return Failed;
      }
      var was := liked[u];
      if LikesConsistent() && id < nextArticleId {
        CountsAfterToggle(articles, liked, nextArticleId, u, id);
      }
      if id in articles {
        articles := articles[id := articles[id].(likes := articles[id].likes + LikeDelta(was, id))];
      }
      liked := liked[u := Toggle(was, id)];
      r := Done(());
    }

    /**
     * POST /create-article, behind `mustBeWriter`: on a clean form, a new article with the next id,
     * the cleaned title and body, no likes, the acting user as author and the given creation time.
     */
    method CreateArticle(who: Identity, title: string, body: string, strip: string -> string, now: string)
      returns (r: Reply<int>)
      requires Valid()
      modifies this`articles, this`nextArticleId
      ensures Valid()
      ensures !IsWriter(who, writers) ==> r == Redirected(NotWriter) && unchanged(this)
      ensures IsWriter(who, writers) && CheckArticle(strip, title, body).errors != [] ==>
        r == Rejected(CheckArticle(strip, title, body).errors) && unchanged(this)
      ensures IsWriter(who, writers) && CheckArticle(strip, title, body).errors == [] ==>
        var c := CheckArticle(strip, title, body);
        var id := old(nextArticleId);
        && r == Done(id)
        && id !in old(articles)
        && articles == old(articles)[id := Article(c.title, c.body, 0, who.value.userid, now)]
        && nextArticleId == id + 1
      ensures old(LikesConsistent()) ==> LikesConsistent()
    {
      if !IsWriter(who, writers) {
        return Redirected(NotWriter);
      }
      var c := CheckArticle(strip, title, body);
      if c.errors != [] {
        return Rejected(c.errors);
      }
      var id := nextArticleId;
      if LikesConsistent() {
        CountsAfterCreate(articles, liked, id, Article(c.title, c.body, 0, who.value.userid, now));
      }
      articles := articles[id := Article(c.title, c.body, 0, who.value.userid, now)];
      nextArticleId := id + 1;
      r := Done(id);
    }

    /**
     * POST /edit-article/:id, behind `mustBeWriter`: a missing article or an acting user who is
     * neither its author nor the administrator is redirected; a form with errors is re-rendered;
     * otherwise only the title and body of that article change.
     */
    method EditArticle(who: Identity, id: int, title: string, body: string, strip: string -> string)
      returns (r: Reply<()>)
      requires Valid()
      modifies this`articles
      ensures Valid()
      ensures !IsWriter(who, writers) ==> r == Redirected(NotWriter) && unchanged(this)
      ensures IsWriter(who, writers) && id !in old(articles) ==> r == Redirected(NotFound) && unchanged(this)
      ensures IsWriter(who, writers) && id in old(articles) && !MayMutate(who.value, old(articles)[id]) ==>
        r == Redirected(NotOwner) && unchanged(this)
      ensures IsWriter(who, writers) && id in old(articles) && MayMutate(who.value, old(articles)[id]) ==>
        var c := CheckArticle(strip, title, body);
        if c.errors != [] then r == Rejected(c.errors) && unchanged(this)
        else r == Done(()) && articles == old(articles)[id := old(articles)[id].(title := c.title, body := c.body)]
      ensures old(LikesConsistent()) ==> LikesConsistent()
    {
      if !IsWriter(who, writers) {
        return Redirected(NotWriter);
      }
      if id !in articles {
        return Redirected(NotFound);
      }
      if !MayMutate(who.value, articles[id]) {
        return Redirected(NotOwner);
      }
      var c := CheckArticle(strip, title, body);
      if c.errors != [] {
        return Rejected(c.errors);
      }
      if LikesConsistent() {
        CountsAfterRewrite(articles, liked, nextArticleId, id, articles[id].(title := c.title, body := c.body));
      }
      articles := articles[id := articles[id].(title := c.title, body := c.body)];
      r := Done(());
    }

    /**
     * POST /delete-article/:id, behind `mustBeWriter`: the same redirects as edit; otherwise that
     * one article row goes. The liked tables are not cleaned up.
     */
    method DeleteArticle(who: Identity, id: int) returns (r: Reply<()>)
      requires Valid()
      modifies this`articles
      ensures Valid()
      ensures !IsWriter(who, writers) ==> r == Redirected(NotWriter) && unchanged(this)
      ensures IsWriter(who, writers) && id !in old(articles) ==> r == Redirected(NotFound) && unchanged(this)
      ensures IsWriter(who, writers) && id in old(articles) && !MayMutate(who.value, old(articles)[id]) ==>
        r == Redirected(NotOwner) && unchanged(this)
      ensures IsWriter(who, writers) && id in old(articles) && MayMutate(who.value, old(articles)[id]) ==>
        r == Done(()) && articles == old(articles) - {id}
      ensures old(LikesConsistent()) ==> LikesConsistent()
    {
      if !IsWriter(who, writers) {
        return Redirected(NotWriter);
      }
      if id !in articles {
        return Redirected(NotFound);
      }
      if !MayMutate(who.value, articles[id]) {
        return Redirected(NotOwner);
      }
      if LikesConsistent() {
        CountsAfterDelete(articles, liked, nextArticleId, id);
      }
      articles := articles - {id};
      r := Done(());
    }

    /**
     * POST /admin-visual-name, behind `mustBeAdmin`: rewrites the row with id 1; when that row does
     * not exist the update matches nothing.
     */
    method SetAdminVisualName(who: Identity, name: string) returns (r: Reply<()>)
      requires Valid()
      modifies this`adminVisualName
      ensures Valid()
      ensures !IsAdmin(who) ==> r == Redirected(NotAdmin) && unchanged(this)
      ensures IsAdmin(who) ==>
        && r == Done(())
        && adminVisualName == if old(adminVisualName).Some? then Some(name) else None
    {
      if !IsAdmin(who) {
        return Redirected(NotAdmin);
      }
      if adminVisualName.Some? {
        adminVisualName := Some(name);
      }
      r := Done(());
    }

    /**
     * POST /add-writer, behind `mustBeAdmin`: adds one more row for the name (duplicates allowed);
     * an empty name changes nothing.
     */
    method AddWriter(who: Identity, name: string) returns (r: Reply<()>)
      requires Valid()
      modifies this`writers
      ensures Valid()
      ensures !IsAdmin(who) ==> r == Redirected(NotAdmin) && unchanged(this)
      ensures IsAdmin(who) && name == [] ==> r == Done(()) && writers == old(writers)
      ensures IsAdmin(who) && name != [] ==> r == Done(()) && writers == old(writers) + multiset{name}
      ensures IsAdmin(who) && name != [] ==> forall s: Session :: s.username == name ==> IsWriter(Some(s), writers)
    {
      if !IsAdmin(who) {
        return Redirected(NotAdmin);
      }
      if name != [] {
        writers := writers + multiset{name};
      }
      r := Done(());
    }

    /**
     * POST /remove-writer, behind `mustBeAdmin`: deletes every row holding the name, so a session
     * with that username is a writer afterwards only if it is the administrator's.
     */
    method RemoveWriter(who: Identity, name: string) returns (r: Reply<()>)
      requires Valid()
      modifies this`writers
      ensures Valid()
      ensures !IsAdmin(who) ==> r == Redirected(NotAdmin) && unchanged(this)
      ensures IsAdmin(who) ==> r == Done(()) && writers == old(writers)[name := 0]
      ensures IsAdmin(who) ==> forall s: Session :: s.username == name ==> (IsWriter(Some(s), writers) <==> s.userid == AdminId)
    {
      if !IsAdmin(who) {
        return Redirected(NotAdmin);
      }
      writers := writers[name := 0];
      r := Done(());
    }
  }

  /**
   * Liking the same article twice as the same user gives the article's count and the user's
   * liked table back as they were, whatever the first toggle did.
   */
  method LikeTwice(store: Store, who: Identity, id: int)
    requires store.Valid()
    modifies store`articles, store`liked
    ensures store.Valid()
    ensures store.articles == old(store.articles) && store.liked == old(store.liked)
  {
    var first := store.LikeArticle(who, id);
    var second := store.LikeArticle(who, id);
    if first.Done? {
      ToggleTwice(old(store.liked)[who.value.username], id);
    }
  }
}
