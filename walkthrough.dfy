/**
 * A run of the handlers on a fresh store: the administrator and two users register, the
 * administrator makes alice a writer, alice publishes and edits an article, bob may not edit it,
 * and bob's like and unlike move its count to 1 and back to 0.
 */
module Walkthrough {
  import opened Wrappers
  import opened JsString
  import opened Records
  import opened Accounts
  import opened Articles
  import opened Blog

  /** The registration forms of the example pass the field checks (the third once trimmed). */
  lemma RootForm()
    ensures CheckRegistration("root@x.com", "root", "rootpw") == Success(Fields("root@x.com", "root"))
  {
    assert Trim("root@x.com") == "root@x.com";
    assert Trim("root") == "root";
    assert Trim("rootpw") == "rootpw";
  }

  lemma AliceForm()
    ensures CheckRegistration("a@x.com", "alice", "secret1") == Success(Fields("a@x.com", "alice"))
  {
    assert Trim("a@x.com") == "a@x.com";
    assert Trim("alice") == "alice";
    assert Trim("secret1") == "secret1";
  }

  lemma SecondAliceForm()
    ensures CheckRegistration("b@x.com", " alice ", "other") == Success(Fields("b@x.com", "alice"))
  {
    assert Trim("b@x.com") == "b@x.com";
    assert TrimStart(" alice ") == "alice ";
    assert Trim(" alice ") == "alice";
    assert Trim("other") == "other";
  }

  lemma BobForm()
    ensures CheckRegistration("c@x.com", "bob", "pw") == Success(Fields("c@x.com", "bob"))
  {
    assert Trim("c@x.com") == "c@x.com";
    assert Trim("bob") == "bob";
    assert Trim("pw") == "pw";
  }

  /** The article forms of the example are clean when the sanitiser leaves them alone. */
  lemma HelloForm(strip: string -> string)
    requires forall s :: strip(s) == s
    ensures CheckArticle(strip, "Hello", "World") == Checked("Hello", "World", [])
  {
    assert Trim("Hello") == "Hello" && JsLength("Hello") == 5;
    assert Trim("World") == "World";
  }

  lemma Hello2Form(strip: string -> string)
    requires forall s :: strip(s) == s
    ensures CheckArticle(strip, "Hello2", "World") == Checked("Hello2", "World", [])
  {
    assert Trim("Hello2") == "Hello2" && JsLength("Hello2") == 6;
    assert Trim("World") == "World";
  }

  /** The first registration on a fresh store gives the administrator, id 1. */
  method RegisterRoot() returns (store: Store)
    ensures fresh(store) && store.Valid() && store.LikesConsistent()
    ensures store.userIdByName == map["root" := 1] && store.nextUserId == 2
    ensures store.liked == map["root" := {}]
    ensures store.writers == multiset{} && store.articles == map[] && store.nextArticleId == 1
  {
    store := new Store();
    RootForm();
    var admin := store.Register("root@x.com", "root", "rootpw", 7);
    assert admin == Done(Session(1, "root"));
  }

  /** alice registers next and gets id 2. */
  method RegisterAlice(store: Store)
    requires store.Valid() && store.LikesConsistent()
    requires store.userIdByName == map["root" := 1] && store.nextUserId == 2
    requires store.liked == map["root" := {}]
    modifies store`users, store`userIdByName, store`nextUserId, store`liked
    ensures store.Valid() && store.LikesConsistent()
    ensures store.userIdByName == map["root" := 1, "alice" := 2] && store.nextUserId == 3
    ensures store.liked == map["root" := {}, "alice" := {}]
  {
    AliceForm();
    var alice := store.Register("a@x.com", "alice", "secret1", 8);
    assert alice == Done(Session(2, "alice"));
  }

  /** " alice " trims to a taken username and is refused; bob gets id 3. */
  method RegisterBob(store: Store)
    requires store.Valid() && store.LikesConsistent()
    requires store.userIdByName == map["root" := 1, "alice" := 2] && store.nextUserId == 3
    requires store.liked == map["root" := {}, "alice" := {}]
    modifies store`users, store`userIdByName, store`nextUserId, store`liked
    ensures store.Valid() && store.LikesConsistent()
    ensures store.userIdByName == map["root" := 1, "alice" := 2, "bob" := 3] && 3 in store.users
    ensures store.liked == map["root" := {}, "alice" := {}, "bob" := {}]
  {
    SecondAliceForm();
    BobForm();
    var again := store.Register("b@x.com", " alice ", "other", 9);
    assert again == Rejected([UsernameTaken]);
    assert "bob" !in store.userIdByName;
    var bob := store.Register("c@x.com", "bob", "pw", 10);
    assert bob == Done(Session(3, "bob"));
  }

  /** The administrator makes alice a writer, and alice publishes article 1. */
  method Publish(store: Store)
    requires store.Valid() && store.LikesConsistent()
    requires store.writers == multiset{} && store.articles == map[] && store.nextArticleId == 1
    modifies store`writers, store`articles, store`nextArticleId
    ensures store.Valid() && store.LikesConsistent()
    ensures store.writers == multiset{"alice"} && store.nextArticleId == 2
    ensures store.articles == map[1 := Article("Hello", "World", 0, 2, "2026-01-01")]
  {
    var strip := (s: string) => s;
    HelloForm(strip);
    var add := store.AddWriter(Some(Session(1, "root")), "alice");
    assert store.writers == multiset{"alice"};
    var created := store.CreateArticle(Some(Session(2, "alice")), "Hello", "World", strip, "2026-01-01");
    assert created == Done(1);
  }

  /** alice retitles her article. */
  method Edit(store: Store)
    requires store.Valid() && store.LikesConsistent()
    requires store.writers == multiset{"alice"} && store.nextArticleId == 2
    requires store.articles == map[1 := Article("Hello", "World", 0, 2, "2026-01-01")]
    modifies store`articles
    ensures store.Valid() && store.LikesConsistent()
    ensures store.articles == map[1 := Article("Hello2", "World", 0, 2, "2026-01-01")]
  {
    var strip := (s: string) => s;
    Hello2Form(strip);
    var edited := store.EditArticle(Some(Session(2, "alice")), 1, "Hello2", "World", strip);
    assert edited == Done(());
  }

  /** bob is no writer, so his edit is turned away and writes nothing. */
  method EditByReader(store: Store)
    requires store.Valid() && store.writers == multiset{"alice"}
    modifies store`articles
    ensures store.articles == old(store.articles)
  {
    var strip := (s: string) => s;
    var denied := store.EditArticle(Some(Session(3, "bob")), 1, "Mine", "Now", strip);
    assert denied == Redirected(NotWriter);
  }

  /** bob likes the article, then likes it again: its count goes to 1 and back to 0. */
  method Example()
  {
    var store := RegisterRoot();
    RegisterAlice(store);
    RegisterBob(store);
    Publish(store);
    Edit(store);
    EditByReader(store);
    var like := store.LikeArticle(Some(Session(3, "bob")), 1);
    assert store.articles[1].likes == 1;
    var unlike := store.LikeArticle(Some(Session(3, "bob")), 1);
    assert store.articles[1].likes == 0;
  }
}
