/** The relational state of the Friend App: one sequence of rows per table,
    kept in insertion order, and one id counter per table standing in for the
    store's autoincrementing primary keys.

    `messages.py` calls an ad a "message" (table `messages`) and `threads.py`
    calls a chat line a "thread message" (table `thread_messages`); here they
    are `Ad` and `Post` so that the two never get confused. */
module Db {
  import opened Wrappers
  import Rows

  type Id = nat

  /** A row of `users`. `age`, `bio` and `image` are nullable columns. */
  datatype User = User(id: Id, username: string, password: string,
                       age: Option<string>, bio: Option<string>, image: Option<seq<bv8>>)

  /** A row of `messages`: an ad owned by `userId`. `age` is the form text
      exactly as it was accepted. */
  datatype Ad = Ad(id: Id, title: string, description: string, age: string, userId: Id)

  /** A (title, value) pair: a row of the `classes` catalog, and what
      `message_classes` holds for one ad. */
  datatype Class = Class(title: string, value: string)

  /** A row of `message_classes`: a classification tag attached to an ad. */
  datatype Tag = Tag(adId: Id, title: string, value: string)

  /** A row of `threads`: a conversation between `user1` and `user2` about ad `adId`. */
  datatype Thread = Thread(id: Id, user1: Id, user2: Id, adId: Id)

  /** A row of `thread_messages`; `read` is the `read_by_user` flag. */
  datatype Post = Post(id: Id, threadId: Id, senderId: Id, content: string, createdAt: int, read: bool)

  datatype Store = Store(
    users: seq<User>,
    ads: seq<Ad>,
    tags: seq<Tag>,
    catalog: seq<Class>,
    threads: seq<Thread>,
    posts: seq<Post>,
    nextUser: Id,
    nextAd: Id,
    nextThread: Id,
    nextPost: Id)

  /** The shape every reachable store has: within each table the ids strictly
      increase in insertion order and stay below the table's counter, and tags
      only name ad ids that have been handed out. */
  ghost predicate Valid(db: Store) {
    && (forall i, j :: 0 <= i < j < |db.users| ==> db.users[i].id < db.users[j].id)
    && (forall u :: u in db.users ==> u.id < db.nextUser)
    && (forall i, j :: 0 <= i < j < |db.ads| ==> db.ads[i].id < db.ads[j].id)
    && (forall a :: a in db.ads ==> a.id < db.nextAd)
    && (forall g :: g in db.tags ==> g.adId < db.nextAd)
    && (forall i, j :: 0 <= i < j < |db.threads| ==> db.threads[i].id < db.threads[j].id)
    && (forall t :: t in db.threads ==> t.id < db.nextThread)
    && (forall i, j :: 0 <= i < j < |db.posts| ==> db.posts[i].id < db.posts[j].id)
    && (forall p :: p in db.posts ==> p.id < db.nextPost)
  }

  /** The user row a lookup by `users.id` returns. */
  function FindUser(users: seq<User>, id: Id): (r: Option<User>)
    ensures r.Some? ==> r.value in users && r.value.id == id
    ensures r.None? <==> forall u :: u in users ==> u.id != id
    ensures (forall i, j :: 0 <= i < j < |users| ==> users[i].id < users[j].id) ==>
            forall u :: u in users && u.id == id ==> r == Some(u)
  {
    var p := (u: User) => u.id == id;
    if forall i, j :: 0 <= i < j < |users| ==> users[i].id < users[j].id then
      assert forall u :: u in users && u.id == id ==> Rows.First(users, p) == Some(u) by {
        forall u | u in users && u.id == id ensures Rows.First(users, p) == Some(u) {
          Rows.FirstIsOnly(users, p, u);
        }
      }
      Rows.First(users, p)
    else
      Rows.First(users, p)
  }

  /** The ad row a lookup by `messages.id` returns. */
  function FindAd(ads: seq<Ad>, id: Id): (r: Option<Ad>)
    ensures r.Some? ==> r.value in ads && r.value.id == id
    ensures r.None? <==> forall a :: a in ads ==> a.id != id
    ensures (forall i, j :: 0 <= i < j < |ads| ==> ads[i].id < ads[j].id) ==>
            forall a :: a in ads && a.id == id ==> r == Some(a)
  {
    var p := (a: Ad) => a.id == id;
    if forall i, j :: 0 <= i < j < |ads| ==> ads[i].id < ads[j].id then
      assert forall a :: a in ads && a.id == id ==> Rows.First(ads, p) == Some(a) by {
        forall a | a in ads && a.id == id ensures Rows.First(ads, p) == Some(a) {
          Rows.FirstIsOnly(ads, p, a);
        }
      }
      Rows.First(ads, p)
    else
      Rows.First(ads, p)
  }

  /** Whether an inner join on `users.id` finds a row for `id`. */
  predicate HasUser(db: Store, id: Id) {
    FindUser(db.users, id).Some?
  }

  /** Whether an inner join on `messages.id` finds a row for `id`. */
  predicate HasAd(db: Store, id: Id) {
    FindAd(db.ads, id).Some?
  }

  /** The ad title an inner join on `messages.id` contributes. */
  function TitleOf(db: Store, id: Id): string {
    match FindAd(db.ads, id)
    case Some(a) => a.title
    case None => ""
  }

  /** The username an inner join on `users.id` contributes; only meaningful
      when `HasUser(db, id)`. */
  function NameOf(db: Store, id: Id): string {
    match FindUser(db.users, id)
    case Some(u) => u.username
    case None => ""
  }
}
