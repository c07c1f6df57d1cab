/**
 * The like toggle, on values: a user's liked set and the change it makes to an article's count,
 * and how the set of users who like an article moves under one toggle.
 */
module Likes {
  import opened Records

  /** What one toggle does to the liked set: remove the id when present, add it otherwise. */
  function Toggle(liked: set<int>, id: int): set<int> {
    if id in liked then liked - {id} else liked + {id}
  }

  /** What one toggle does to the article's count: down by one when the id was in the set, up by one otherwise. */
  function LikeDelta(liked: set<int>, id: int): int {
    if id in liked then -1 else 1
  }

  /** The toggle flips membership of `id` and leaves every other id where it was. */
  lemma ToggleFlips(liked: set<int>, id: int, other: int)
    ensures id in Toggle(liked, id) <==> id !in liked
    ensures other != id ==> (other in Toggle(liked, id) <==> other in liked)
    ensures LikeDelta(liked, id) == (if id in Toggle(liked, id) then 1 else -1)
  {
  }

  /** Toggling twice gives the set back, and the two count changes cancel. */
  lemma ToggleTwice(liked: set<int>, id: int)
    ensures Toggle(Toggle(liked, id), id) == liked
    ensures LikeDelta(liked, id) + LikeDelta(Toggle(liked, id), id) == 0
  {
  }

  /** The users whose liked set holds `id`. */
  ghost function Likers(liked: map<string, set<int>>, id: int): set<string> {
    set u | u in liked && id in liked[u]
  }

  /**
   * One toggle by user `u` on `id` changes the number of users liking `id` by exactly the change
   * it makes to the count, and the number liking any other id not at all.
   */
  lemma {:induction false} LikersAfterToggle(liked: map<string, set<int>>, u: string, id: int, b: int)
    requires u in liked
    ensures |Likers(liked[u := Toggle(liked[u], id)], b)| ==
            |Likers(liked, b)| + (if b == id then LikeDelta(liked[u], id) else 0)
  {
    var after := liked[u := Toggle(liked[u], id)];
    if b != id {
      assert Likers(after, b) == Likers(liked, b);
    } else if id in liked[u] {
      assert Likers(liked, b) == Likers(after, b) + {u};
      assert u !in Likers(after, b);
    } else {
      assert Likers(after, b) == Likers(liked, b) + {u};
      assert u !in Likers(liked, b);
    }
  }

  /** A new user with an empty liked set changes no article's likers. */
  lemma LikersAfterNewUser(liked: map<string, set<int>>, u: string, b: int)
    requires u !in liked
    ensures Likers(liked[u := {}], b) == Likers(liked, b)
  {
  }

  /** When every liked id is below `next`, nobody likes `next` or any later id. */
  lemma LikersOfUnallocated(liked: map<string, set<int>>, next: int, b: int)
    requires forall u, x :: u in liked && x in liked[u] ==> x < next
    requires next <= b
    ensures Likers(liked, b) == {}
  {
  }

  /**
   * The like counts agree with the liked tables: each article's count is the number of users
   * whose liked set holds its id, and no liked set holds an id not handed out yet (`next` is the
   * id the next article will get).
   */
  ghost predicate CountsMatch(articles: map<int, Article>, liked: map<string, set<int>>, next: int) {
    (forall id :: id in articles ==> articles[id].likes == |Likers(liked, id)|) &&
    (forall u, x :: u in liked && x in liked[u] ==> x < next)
  }

  /** Registering a user (a new, empty liked table) keeps the counts right. */
  lemma CountsAfterNewUser(articles: map<int, Article>, liked: map<string, set<int>>, next: int, u: string)
    requires CountsMatch(articles, liked, next) && u !in liked
    ensures CountsMatch(articles, liked[u := {}], next)
  {
    forall b | b in articles
      ensures Likers(liked[u := {}], b) == Likers(liked, b)
    {
      LikersAfterNewUser(liked, u, b);
    }
  }

  /** A new article takes the next id with no likes; nobody can like that id yet. */
  lemma CountsAfterCreate(articles: map<int, Article>, liked: map<string, set<int>>, next: int, a: Article)
    requires CountsMatch(articles, liked, next) && next !in articles && a.likes == 0
    ensures CountsMatch(articles[next := a], liked, next + 1)
  {
    LikersOfUnallocated(liked, next, next);
  }

  /** An edit that keeps an article's count keeps the counts right. */
  lemma CountsAfterRewrite(articles: map<int, Article>, liked: map<string, set<int>>, next: int, id: int, a: Article)
    requires CountsMatch(articles, liked, next) && id in articles && a.likes == articles[id].likes
    ensures CountsMatch(articles[id := a], liked, next)
  {
  }

  /** Deleting an article keeps the counts right, although its id stays in the liked tables. */
  lemma CountsAfterDelete(articles: map<int, Article>, liked: map<string, set<int>>, next: int, id: int)
    requires CountsMatch(articles, liked, next)
    ensures CountsMatch(articles - {id}, liked, next)
  {
  }

  /**
   * A toggle by a user with a liked table on an id already handed out keeps the counts right,
   * whether the article still exists or not.
   */
  lemma CountsAfterToggle(articles: map<int, Article>, liked: map<string, set<int>>, next: int, u: string, id: int)
    requires CountsMatch(articles, liked, next) && u in liked && id < next
    ensures var after := if id in articles
                         then articles[id := articles[id].(likes := articles[id].likes + LikeDelta(liked[u], id))]
                         else articles;
            CountsMatch(after, liked[u := Toggle(liked[u], id)], next)
  {
    forall b | b in articles
      ensures |Likers(liked[u := Toggle(liked[u], id)], b)| == |Likers(liked, b)| + (if b == id then LikeDelta(liked[u], id) else 0)
    {
      LikersAfterToggle(liked, u, id, b);
    }
  }

  /**
   * The bound in the invariant matters: a like on an id not handed out yet, followed by the
   * creation of that article, leaves an article whose count (0) disagrees with its likers (1).
   */
  lemma UnallocatedLikeBreaksCounts(u: string, next: int, a: Article)
    requires a.likes == 0
    ensures var liked := map[u := Toggle({}, next)];
            Likers(liked, next) == {u} && !CountsMatch(map[next := a], liked, next + 1)
  {
    var liked := map[u := Toggle({}, next)];
    assert Likers(liked, next) == {u};
  }
}
