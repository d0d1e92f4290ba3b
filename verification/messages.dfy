/** The ad catalog (messages.py): ads with their classification tags, the
    class catalog grouped by title, substring search, and the cascading
    delete that removes an ad's tags, threads and thread messages. */
module Messages {
  import opened Wrappers
  import opened Db
  import Rows
  import Threads

  /** A row of `get_messages` / `get_message`: the ad joined with its owner's
      username and age. */
  datatype AdView = AdView(id: Id, title: string, description: string, userId: Id,
                           username: string, userAge: Option<string>)

  /** A row of `find_messages`. */
  datatype SearchHit = SearchHit(id: Id, title: string)

  /** One entry of the ordered map `get_all_classes` builds: a title and its
      permitted values. */
  datatype Group = Group(title: string, values: seq<string>)

  function AgeOf(db: Store, id: Id): Option<string> {
    match FindUser(db.users, id)
    case Some(u) => u.age
    case None => None
  }

  function AdViewOf(db: Store, a: Ad): AdView {
    AdView(a.id, a.title, a.description, a.userId, NameOf(db, a.userId), AgeOf(db, a.userId))
  }

  /** messages.py `get_messages`: every ad whose owner joins, newest first. */
  function GetMessages(db: Store): (r: seq<AdView>)
    ensures forall a :: a in db.ads && HasUser(db, a.userId) ==> AdViewOf(db, a) in r
    ensures forall v :: v in r ==> exists a :: a in db.ads && HasUser(db, a.userId) && v == AdViewOf(db, a)
    ensures Valid(db) ==> forall i, j :: 0 <= i < j < |r| ==> r[i].id > r[j].id
  {
    Rows.NewestFirst(db.ads, (a: Ad) => HasUser(db, a.userId), (a: Ad) => AdViewOf(db, a),
                     (a: Ad) => a.id, (v: AdView) => v.id)
  }

  /** The join test of `get_message`: the ad has this id and its owner a row. */
  predicate Shown(db: Store, messageId: Id, a: Ad) {
    a.id == messageId && HasUser(db, a.userId)
  }

  /** messages.py `get_message`: the ad with this id joined with its owner,
      or None when there is no such ad (or its owner has no row). */
  function GetMessage(db: Store, messageId: Id): (r: Option<AdView>)
    ensures r.None? <==> forall a :: a in db.ads ==> !Shown(db, messageId, a)
    ensures r.Some? ==> exists a :: a in db.ads && Shown(db, messageId, a) && r.value == AdViewOf(db, a)
  {
    match Rows.First(db.ads, (a: Ad) => Shown(db, messageId, a))
    case None => None
    case Some(a) => Some(AdViewOf(db, a))
  }

  /** Ad ids are unique in a valid store, so `get_message` returns the one
      joined ad with that id. */
  lemma GetMessageFindsIt(db: Store, messageId: Id, a: Ad)
    requires Valid(db)
    requires a in db.ads && Shown(db, messageId, a)
    ensures GetMessage(db, messageId) == Some(AdViewOf(db, a))
  {
    var p := (b: Ad) => Shown(db, messageId, b);
    forall i, j | 0 <= i < j < |db.ads| && p(db.ads[i]) ensures !p(db.ads[j]) {
      assert db.ads[i].id < db.ads[j].id;
    }
    Rows.FirstIsOnly(db.ads, p, a);
  }

  function ClassOf(g: Tag): Class {
    Class(g.title, g.value)
  }

  /** messages.py `get_classes`: the (title, value) pairs attached to the ad,
      in storage order. */
  function GetClasses(db: Store, messageId: Id): (r: seq<Class>)
    ensures forall g :: g in db.tags && g.adId == messageId ==> ClassOf(g) in r
    ensures forall c :: c in r ==> Tag(messageId, c.title, c.value) in db.tags
  {
    Rows.Select(db.tags, (g: Tag) => g.adId == messageId, ClassOf)
  }

  /** messages.py `add_class_to_message`: one tag row. */
  function AddClassToMessage(db: Store, messageId: Id, title: string, value: string): (r: Store)
    ensures r == db.(tags := r.tags)
    ensures r.tags == db.tags + [Tag(messageId, title, value)]
  {
    db.(tags := db.tags + [Tag(messageId, title, value)])
  }

  /** The `for class_title, class_value in classes_selected` loop shared by
      `add_message` and `update_message`: one tag row per pair, in list order,
      all keyed to `messageId`. */
  function AddClasses(db: Store, messageId: Id, classes: seq<Class>): (r: Store)
    ensures r == db.(tags := r.tags)
    ensures |r.tags| == |db.tags| + |classes| && r.tags[..|db.tags|] == db.tags
    ensures forall k :: 0 <= k < |classes| ==>
      r.tags[|db.tags| + k] == Tag(messageId, classes[k].title, classes[k].value)
    decreases |classes|
  {
    if |classes| == 0 then db
    else
      var next := AddClassToMessage(db, messageId, classes[0].title, classes[0].value);
      var r := AddClasses(next, messageId, classes[1..]);
      assert r.tags[..|db.tags|] == db.tags by {
        assert r.tags[..|next.tags|] == next.tags;
        assert next.tags[..|db.tags|] == db.tags;
      }
      r
  }

  /** The tags `AddClasses` appends, read back through the ad's id, are
      exactly the pairs it was given. */
  lemma {:induction false} SelectAddedTags(tags: seq<Tag>, messageId: Id, classes: seq<Class>)
    requires |tags| == |classes|
    requires forall k :: 0 <= k < |classes| ==> tags[k] == Tag(messageId, classes[k].title, classes[k].value)
    ensures Rows.Select(tags, (g: Tag) => g.adId == messageId, ClassOf) == classes
  {
    if |classes| > 0 {
      SelectAddedTags(tags[1..], messageId, classes[1..]);
    }
  }

  /** Tags appended for one ad do not show up under any other ad. */
  lemma AddedTagsOnlyForThatAd(tags: seq<Tag>, messageId: Id, other: Id)
    requires other != messageId
    requires forall g :: g in tags ==> g.adId == messageId
    ensures Rows.Select(tags, (g: Tag) => g.adId == other, ClassOf) == []
  {
    Rows.SelectNone(tags, (g: Tag) => g.adId == other, ClassOf);
  }

  /** After `AddClasses`, the ad's tags are its old tags followed by the new
      pairs, and every other ad's tags are unchanged. */
  lemma ClassesAfterAdd(db: Store, messageId: Id, classes: seq<Class>)
    ensures GetClasses(AddClasses(db, messageId, classes), messageId) == GetClasses(db, messageId) + classes
    ensures forall other :: other != messageId ==>
      GetClasses(AddClasses(db, messageId, classes), other) == GetClasses(db, other)
  {
    var r := AddClasses(db, messageId, classes);
    var added := r.tags[|db.tags|..];
    assert r.tags == db.tags + added;
    assert forall k :: 0 <= k < |classes| ==> added[k] == r.tags[|db.tags| + k];
    Rows.SelectConcat(db.tags, added, (g: Tag) => g.adId == messageId, ClassOf);
    SelectAddedTags(added, messageId, classes);
    forall other | other != messageId
      ensures GetClasses(r, other) == GetClasses(db, other)
    {
      Rows.SelectConcat(db.tags, added, (g: Tag) => g.adId == other, ClassOf);
      AddedTagsOnlyForThatAd(added, messageId, other);
    }
  }

  /** The rows `AddClasses` leaves: the old tags and one for each pair. */
  lemma {:induction false} AddClassesRows(db: Store, messageId: Id, classes: seq<Class>)
    ensures forall g :: g in AddClasses(db, messageId, classes).tags <==>
      g in db.tags || (g.adId == messageId && ClassOf(g) in classes)
    decreases |classes|
  {
    if |classes| > 0 {
      var next := AddClassToMessage(db, messageId, classes[0].title, classes[0].value);
      AddClassesRows(next, messageId, classes[1..]);
      assert classes == [classes[0]] + classes[1..];
    }
  }

  /** messages.py `add_message`: inserts the ad under a fresh id, then one tag
      row per selected pair, and returns the id. */
  function AddMessage(db: Store, title: string, description: string, age: string, userId: Id,
                      classes: seq<Class>): (r: (Store, Id))
    ensures r.1 == db.nextAd
    ensures r.0.ads == db.ads + [Ad(r.1, title, description, age, userId)]
    ensures r.0 == db.(ads := r.0.ads, tags := r.0.tags, nextAd := r.0.nextAd)
    ensures |r.0.tags| == |db.tags| + |classes| && r.0.tags[..|db.tags|] == db.tags
    ensures forall k :: 0 <= k < |classes| ==> r.0.tags[|db.tags| + k] == Tag(r.1, classes[k].title, classes[k].value)
    ensures Valid(db) ==> Valid(r.0) && forall a :: a in db.ads ==> a.id != r.1
  {
    var id := db.nextAd;
    var inserted := db.(ads := db.ads + [Ad(id, title, description, age, userId)], nextAd := id + 1);
    AddClassesRows(inserted, id, classes);
    (AddClasses(inserted, id, classes), id)
  }

  /** A new ad reads back with exactly the classes it was created with, in
      order. */
  lemma AddThenGetClasses(db: Store, title: string, description: string, age: string, userId: Id,
                          classes: seq<Class>)
    requires Valid(db)
    ensures var (db', id) := AddMessage(db, title, description, age, userId, classes);
            GetClasses(db', id) == classes
  {
    var id := db.nextAd;
    var inserted := db.(ads := db.ads + [Ad(id, title, description, age, userId)], nextAd := id + 1);
    assert AddMessage(db, title, description, age, userId, classes) == (AddClasses(inserted, id, classes), id);
    ClassesAfterAdd(inserted, id, classes);
    assert forall g :: g in inserted.tags ==> g.adId < id;
    Rows.SelectNone(inserted.tags, (g: Tag) => g.adId == id, ClassOf);
  }

  /** `get_message` finds a new ad, joined with its owner, when the owner has
      a row. */
  lemma AddThenGetMessage(db: Store, title: string, description: string, age: string, userId: Id,
                          classes: seq<Class>)
    requires Valid(db) && HasUser(db, userId)
    ensures var (db', id) := AddMessage(db, title, description, age, userId, classes);
            GetMessage(db', id) == Some(AdView(id, title, description, userId, NameOf(db, userId), AgeOf(db, userId)))
  {
    var (db', id) := AddMessage(db, title, description, age, userId, classes);
    var a := Ad(id, title, description, age, userId);
    assert db'.users == db.users;
    assert a in db'.ads;
    GetMessageFindsIt(db', id, a);
  }

  /** The whole-ad rewrite of `update_message`: title and description change
      only on the ad with this id owned by `userId`. */
  function RewriteAds(ads: seq<Ad>, messageId: Id, userId: Id, title: string, description: string): (r: seq<Ad>)
    ensures |r| == |ads|
    ensures forall i :: 0 <= i < |ads| ==> r[i].(title := ads[i].title, description := ads[i].description) == ads[i]
    ensures forall i :: 0 <= i < |ads| && ads[i].id == messageId && ads[i].userId == userId ==>
      r[i].title == title && r[i].description == description
    ensures forall i :: 0 <= i < |ads| && !(ads[i].id == messageId && ads[i].userId == userId) ==> r[i] == ads[i]
  {
    seq(|ads|, i requires 0 <= i < |ads| =>
      if ads[i].id == messageId && ads[i].userId == userId then ads[i].(title := title, description := description) else ads[i])
  }

  /** Tags with this ad id removed, the `DELETE FROM message_classes WHERE
      message_id = ?` step. */
  function DropTags(tags: seq<Tag>, messageId: Id): (r: seq<Tag>)
    ensures forall g :: g in r <==> g in tags && g.adId != messageId
  {
    Rows.Where(tags, (g: Tag) => g.adId != messageId)
  }

  /** Deleting the rows of one ad leaves every other ad's tags as they were. */
  lemma {:induction false} SelectAfterDrop(tags: seq<Tag>, messageId: Id, other: Id)
    requires other != messageId
    ensures Rows.Select(DropTags(tags, messageId), (g: Tag) => g.adId == other, ClassOf)
         == Rows.Select(tags, (g: Tag) => g.adId == other, ClassOf)
  {
    if |tags| > 0 {
      var head := if tags[0].adId != messageId then [tags[0]] else [];
      assert DropTags(tags, messageId) == head + DropTags(tags[1..], messageId);
      Rows.SelectConcat(head, DropTags(tags[1..], messageId), (g: Tag) => g.adId == other, ClassOf);
      SelectAfterDrop(tags[1..], messageId, other);
    }
  }

  /** messages.py `update_message`: rewrites title and description of the
      caller's own ad, then replaces the ad's whole tag set with `classes`.
      The tag replacement is not scoped to the owner. */
  function UpdateMessage(db: Store, messageId: Id, userId: Id, title: string, description: string,
                         classes: seq<Class>): (r: Store)
    ensures r == db.(ads := r.ads, tags := r.tags)
    ensures r.ads == RewriteAds(db.ads, messageId, userId, title, description)
    ensures forall g :: g in r.tags && g.adId != messageId <==> g in db.tags && g.adId != messageId
  {
    var cleared := db.(ads := RewriteAds(db.ads, messageId, userId, title, description),
                       tags := DropTags(db.tags, messageId));
    AddClassesRows(cleared, messageId, classes);
    AddClasses(cleared, messageId, classes)
  }

  /** After an update the ad carries exactly the submitted classes, in order,
      and every other ad keeps its own. */
  lemma UpdateThenGetClasses(db: Store, messageId: Id, userId: Id, title: string, description: string,
                             classes: seq<Class>)
    ensures var r := UpdateMessage(db, messageId, userId, title, description, classes);
            && GetClasses(r, messageId) == classes
            && forall other :: other != messageId ==> GetClasses(r, other) == GetClasses(db, other)
  {
    var cleared := db.(ads := RewriteAds(db.ads, messageId, userId, title, description),
                       tags := DropTags(db.tags, messageId));
    ClassesAfterAdd(cleared, messageId, classes);
    Rows.SelectNone(cleared.tags, (g: Tag) => g.adId == messageId, ClassOf);
    forall other | other != messageId ensures GetClasses(cleared, other) == GetClasses(db, other) {
      SelectAfterDrop(db.tags, messageId, other);
    }
  }

  /** Updating an ad whose id has been handed out keeps the store valid. */
  lemma UpdateMessageValid(db: Store, messageId: Id, userId: Id, title: string, description: string,
                           classes: seq<Class>)
    requires Valid(db) && messageId < db.nextAd
    ensures Valid(UpdateMessage(db, messageId, userId, title, description, classes))
  {
    var r := UpdateMessage(db, messageId, userId, title, description, classes);
    var cleared := db.(ads := RewriteAds(db.ads, messageId, userId, title, description),
                       tags := DropTags(db.tags, messageId));
    AddClassesRows(cleared, messageId, classes);
    forall a | a in r.ads ensures a.id < r.nextAd {
      var k :| 0 <= k < |r.ads| && r.ads[k] == a;
      assert db.ads[k] in db.ads;
    }
  }

  /** In a valid store, the owner's update gives their ad the new title and
      description. */
  lemma UpdateThenText(db: Store, messageId: Id, userId: Id, title: string, description: string,
                       classes: seq<Class>)
    requires Valid(db)
    requires exists b :: b in db.ads && b.id == messageId && b.userId == userId
    ensures forall a :: a in UpdateMessage(db, messageId, userId, title, description, classes).ads && a.id == messageId ==>
              a.title == title && a.description == description
  {
    var b :| b in db.ads && b.id == messageId && b.userId == userId;
    var j :| 0 <= j < |db.ads| && db.ads[j] == b;
    var ads := UpdateMessage(db, messageId, userId, title, description, classes).ads;
    forall a | a in ads && a.id == messageId ensures a.title == title && a.description == description {
      var i :| 0 <= i < |ads| && ads[i] == a;
      assert ads[i].(title := db.ads[i].title, description := db.ads[i].description) == db.ads[i];
      assert db.ads[i].id == messageId == db.ads[j].id;
      assert i == j;
    }
  }

  /** A caller who does not own the ad leaves its title and description alone
      but still replaces its classes. */
  lemma UpdateByStranger(db: Store, messageId: Id, userId: Id, title: string, description: string,
                         classes: seq<Class>)
    requires forall a :: a in db.ads && a.id == messageId ==> a.userId != userId
    ensures var r := UpdateMessage(db, messageId, userId, title, description, classes);
            r.ads == db.ads && GetClasses(r, messageId) == classes
  {
    UpdateThenGetClasses(db, messageId, userId, title, description, classes);
    var r := UpdateMessage(db, messageId, userId, title, description, classes);
    forall i | 0 <= i < |db.ads| ensures r.ads[i] == db.ads[i] {
      assert db.ads[i] in db.ads;
    }
  }

  /** The ids `SELECT id FROM threads WHERE ad_id = ?` returns. */
  function ThreadIdsOf(db: Store, messageId: Id): (r: set<Id>)
    ensures forall t :: t in db.threads && t.adId == messageId ==> t.id in r
    ensures forall id :: id in r ==> exists t :: t in db.threads && t.adId == messageId && t.id == id
  {
    set t | t in db.threads && t.adId == messageId :: t.id
  }

  /** messages.py `remove_message`: deletes the ad's tags, then for each
      thread about the ad its messages and the thread, then the ad row if it
      is owned by `userId`. Only the last step checks the owner. */
  function RemoveMessage(db: Store, messageId: Id, userId: Id): (r: Store)
    ensures r == db.(ads := r.ads, tags := r.tags, threads := r.threads, posts := r.posts)
    ensures forall g :: g in r.tags <==> g in db.tags && g.adId != messageId
    ensures forall t :: t in r.threads <==> t in db.threads && t.id !in ThreadIdsOf(db, messageId)
    ensures forall p :: p in r.posts <==> p in db.posts && p.threadId !in ThreadIdsOf(db, messageId)
    ensures forall a :: a in r.ads <==> a in db.ads && !(a.id == messageId && a.userId == userId)
  {
    var doomed := ThreadIdsOf(db, messageId);
    db.(tags := DropTags(db.tags, messageId),
        posts := Rows.Where(db.posts, (p: Post) => p.threadId !in doomed),
        threads := Rows.Where(db.threads, (t: Thread) => t.id !in doomed),
        ads := Rows.Where(db.ads, (a: Ad) => !(a.id == messageId && a.userId == userId)))
  }

  /** Nothing of the removed ad's conversations survives: no thread about the
      ad and no message in any of its threads. */
  lemma RemoveMessageCascades(db: Store, messageId: Id, userId: Id)
    ensures var r := RemoveMessage(db, messageId, userId);
            && (forall g :: g in r.tags ==> g.adId != messageId)
            && (forall t :: t in r.threads ==> t.adId != messageId)
            && (forall p, t :: p in r.posts && t in db.threads && t.adId == messageId ==> p.threadId != t.id)
  {
  }

  /** After removal `get_classes` finds nothing for the ad. */
  lemma RemoveThenNoClasses(db: Store, messageId: Id, userId: Id)
    ensures GetClasses(RemoveMessage(db, messageId, userId), messageId) == []
  {
    var r := RemoveMessage(db, messageId, userId);
    Rows.SelectNone(r.tags, (g: Tag) => g.adId == messageId, ClassOf);
  }

  /** After removal `get_threads_by_message` finds nothing for the ad. */
  lemma RemoveThenNoThreads(db: Store, messageId: Id, userId: Id)
    ensures Threads.GetThreadsByMessage(RemoveMessage(db, messageId, userId), messageId) == []
  {
    var r := RemoveMessage(db, messageId, userId);
    Rows.NoMembers(Threads.GetThreadsByMessage(r, messageId));
  }

  /** Each former thread of a removed ad lists no messages. */
  lemma RemoveThenNoLines(db: Store, messageId: Id, userId: Id, t: Thread, viewer: Id)
    requires t in db.threads && t.adId == messageId
    ensures Threads.GetMessages(RemoveMessage(db, messageId, userId), t.id, viewer) == []
  {
    var r := RemoveMessage(db, messageId, userId);
    assert forall p :: p in r.posts ==> p.threadId != t.id;
    Rows.NoMembers(Threads.GetMessages(r, t.id, viewer));
  }

  /** The owner's removal makes `get_message` find nothing; anyone else's
      leaves the ad row in place. */
  lemma RemoveThenGetMessage(db: Store, messageId: Id, userId: Id, a: Ad)
    requires Valid(db)
    requires a in db.ads && a.id == messageId
    ensures a.userId == userId ==> GetMessage(RemoveMessage(db, messageId, userId), messageId).None?
    ensures a.userId != userId ==> a in RemoveMessage(db, messageId, userId).ads
  {
    var r := RemoveMessage(db, messageId, userId);
    if a.userId == userId {
      forall b | b in r.ads ensures b.id != messageId {
        var i :| 0 <= i < |db.ads| && db.ads[i] == a;
        var j :| 0 <= j < |db.ads| && db.ads[j] == b;
        assert i == j || db.ads[i].id != db.ads[j].id;
      }
    }
  }

  /** Removal deletes rows and adds none, so the store stays valid. */
  lemma RemoveMessageValid(db: Store, messageId: Id, userId: Id)
    requires Valid(db)
    ensures Valid(RemoveMessage(db, messageId, userId))
  {
    var doomed := ThreadIdsOf(db, messageId);
    var r := RemoveMessage(db, messageId, userId);
    var adKey := (a: Ad) => a.id;
    var threadKey := (t: Thread) => t.id;
    var postKey := (p: Post) => p.id;
    assert Rows.Ascending(db.ads, adKey);
    assert Rows.Ascending(db.threads, threadKey);
    assert Rows.Ascending(db.posts, postKey);
    Rows.WhereKeepsAscending(db.ads, (a: Ad) => !(a.id == messageId && a.userId == userId), adKey);
    Rows.WhereKeepsAscending(db.threads, (t: Thread) => t.id !in doomed, threadKey);
    Rows.WhereKeepsAscending(db.posts, (p: Post) => p.threadId !in doomed, postKey);
    assert Rows.Ascending(r.ads, adKey);
    assert Rows.Ascending(r.threads, threadKey);
    assert Rows.Ascending(r.posts, postKey);
  }

  /** Removal only deletes threads, so it keeps at most one thread per ad
      and pair of users. */
  lemma RemoveMessageKeepsOneThreadPerPair(db: Store, messageId: Id, userId: Id)
    requires Threads.OneThreadPerPair(db.threads)
    ensures Threads.OneThreadPerPair(RemoveMessage(db, messageId, userId).threads)
  {
    var doomed := ThreadIdsOf(db, messageId);
    var keep := (t: Thread) => t.id !in doomed;
    assert RemoveMessage(db, messageId, userId).threads == Rows.Where(db.threads, keep);
    Threads.WhereKeepsOneThreadPerPair(db.threads, keep);
  }

  /** After its ad is removed, a conversation about it starts over: the next
      `get_or_create_thread` inserts a thread under an id no removed thread had. */
  lemma RemoveThenNewThread(db: Store, messageId: Id, ownerId: Id, userId: Id)
    requires Valid(db)
    ensures var r := RemoveMessage(db, messageId, ownerId);
            var (r', id) := Threads.GetOrCreateThread(r, messageId, userId, ownerId);
            && |r'.threads| == |r.threads| + 1
            && forall t :: t in db.threads ==> t.id != id
  {
    var r := RemoveMessage(db, messageId, ownerId);
    RemoveMessageValid(db, messageId, ownerId);
    assert forall t :: t in r.threads ==> !Threads.Connects(t, messageId, userId, ownerId);
  }

  /** Values of the catalog rows with this title, in row order. */
  function ValuesFor(rows: seq<Class>, title: string): seq<string> {
    Rows.Select(rows, (c: Class) => c.title == title, (c: Class) => c.value)
  }

  /** Position of the first catalog row with this title; |rows| when there is none. */
  function FirstIndex(rows: seq<Class>, title: string): nat {
    Rows.IndexBy(rows, (x: Class) => x.title, title)
  }

  function Keys(groups: seq<Group>): (r: seq<string>)
    ensures |r| == |groups|
    ensures forall i :: 0 <= i < |groups| ==> r[i] == groups[i].title
  {
    seq(|groups|, i requires 0 <= i < |groups| => groups[i].title)
  }

  /** Position of the first entry with this title; |groups| when there is none. */
  function IndexOf(groups: seq<Group>, title: string): nat {
    Rows.IndexBy(groups, (g: Group) => g.title, title)
  }

  /** No title appears twice. */
  predicate DistinctTitles(groups: seq<Group>) {
    forall i, j :: 0 <= i < j < |groups| ==> groups[i].title != groups[j].title
  }

  /** Number of values across all entries. */
  function TotalValues(groups: seq<Group>): nat {
    if |groups| == 0 then 0 else TotalValues(groups[..|groups| - 1]) + |groups[|groups| - 1].values|
  }

  lemma {:induction false} TotalOfUpdate(groups: seq<Group>, k: nat, x: Group)
    requires k < |groups|
    ensures TotalValues(groups[k := x]) + |groups[k].values| == TotalValues(groups) + |x.values|
    decreases |groups|
  {
    var n := |groups|;
    if k == n - 1 {
      assert groups[k := x][..n - 1] == groups[..n - 1];
    } else {
      assert groups[k := x][..n - 1] == groups[..n - 1][k := x];
      TotalOfUpdate(groups[..n - 1], k, x);
    }
  }

  /** Each grouping step files exactly one more value. */
  lemma TotalOfAddValue(groups: seq<Group>, c: Class)
    ensures TotalValues(AddValue(groups, c)) == TotalValues(groups) + 1
  {
    var k := IndexOf(groups, c.title);
    if k < |groups| {
      TotalOfUpdate(groups, k, Group(c.title, groups[k].values + [c.value]));
    } else {
      assert (groups + [Group(c.title, [c.value])])[..|groups|] == groups;
    }
  }

  /** One step of the grouping loop: append `c.value` under `c.title`,
      opening a new entry at the end when the title is new. */
  function AddValue(groups: seq<Group>, c: Class): (r: seq<Group>)
    ensures c.title in Keys(r)
    ensures |r| == |groups| + (if c.title in Keys(groups) then 0 else 1)
    ensures forall i :: 0 <= i < |groups| ==> r[i].title == groups[i].title
    ensures c.title !in Keys(groups) ==> r[|groups|] == Group(c.title, [c.value])
    ensures DistinctTitles(groups) ==> DistinctTitles(r)
    ensures DistinctTitles(groups) ==> forall i :: 0 <= i < |groups| ==>
      r[i].values == groups[i].values + (if groups[i].title == c.title then [c.value] else [])
  {
    var k := IndexOf(groups, c.title);
    if k == |groups| then
      assert Keys(groups + [Group(c.title, [c.value])])[k] == c.title;
      groups + [Group(c.title, [c.value])]
    else
      assert Keys(groups)[k] == c.title;
      var r := groups[k := Group(c.title, groups[k].values + [c.value])];
      assert Keys(r)[k] == c.title;
      r
  }

  /** Every catalog title has an entry. */
  ghost predicate CoversTitles(rows: seq<Class>, r: seq<Group>) {
    forall c :: c in rows ==> c.title in Keys(r)
  }

  /** Every entry holds exactly its title's values, in row order. */
  ghost predicate ValuesMatch(rows: seq<Class>, r: seq<Group>) {
    forall i :: 0 <= i < |r| ==> r[i].values == ValuesFor(rows, r[i].title)
  }

  /** Entries are for titles that occur, in order of first occurrence. */
  ghost predicate FirstAppearanceOrder(rows: seq<Class>, r: seq<Group>) {
    && (forall i :: 0 <= i < |r| ==> FirstIndex(rows, r[i].title) < |rows|)
    && (forall i, j :: 0 <= i < j < |r| ==> FirstIndex(rows, r[i].title) < FirstIndex(rows, r[j].title))
  }

  /** What `get_all_classes` promises of the map it builds from the catalog
      rows: one entry per distinct title, ordered by where the title first
      appears, each holding that title's values in row order, every row's
      value filed once. */
  ghost predicate GroupsRows(rows: seq<Class>, r: seq<Group>) {
    && DistinctTitles(r) && CoversTitles(rows, r) && ValuesMatch(rows, r) && FirstAppearanceOrder(rows, r)
    && TotalValues(r) == |rows|
  }

  lemma StepCovers(init: seq<Class>, c: Class, g: seq<Group>)
    requires CoversTitles(init, g)
    ensures CoversTitles(init + [c], AddValue(g, c))
  {
    var r := AddValue(g, c);
    forall x | x in init + [c] ensures x.title in Keys(r) {
      if x in init {
        var i :| 0 <= i < |g| && Keys(g)[i] == x.title;
        assert Keys(r)[i] == x.title;
      }
    }
  }

  lemma StepValues(init: seq<Class>, c: Class, g: seq<Group>)
    requires DistinctTitles(g) && CoversTitles(init, g) && ValuesMatch(init, g)
    ensures ValuesMatch(init + [c], AddValue(g, c))
  {
    var rows := init + [c];
    var r := AddValue(g, c);
    forall i | 0 <= i < |r| ensures r[i].values == ValuesFor(rows, r[i].title) {
      var t := r[i].title;
      Rows.SelectConcat(init, [c], (x: Class) => x.title == t, (x: Class) => x.value);
      if i == |g| {
        assert c.title !in Keys(g) && t == c.title;
        Rows.SelectNone(init, (x: Class) => x.title == t, (x: Class) => x.value);
      }
    }
  }

  lemma StepOrder(init: seq<Class>, c: Class, g: seq<Group>)
    requires CoversTitles(init, g) && FirstAppearanceOrder(init, g)
    ensures FirstAppearanceOrder(init + [c], AddValue(g, c))
  {
    var r := AddValue(g, c);
    forall i | 0 <= i < |r| ensures FirstIndex(init + [c], r[i].title) == if i < |g| then FirstIndex(init, g[i].title) else |init| {
      Rows.IndexByOfAppend(init, c, (x: Class) => x.title, r[i].title);
      if i == |g| {
        assert c.title !in Keys(g);
      }
    }
  }

  /** Filing the next row into the entries built from the rows before it
      yields the entries for all of them. */
  lemma GroupStep(rows: seq<Class>, g: seq<Group>)
    requires |rows| > 0 && GroupsRows(rows[..|rows| - 1], g)
    ensures GroupsRows(rows, AddValue(g, rows[|rows| - 1]))
  {
    var init, c := rows[..|rows| - 1], rows[|rows| - 1];
    assert init + [c] == rows;
    StepCovers(init, c, g);
    StepValues(init, c, g);
    StepOrder(init, c, g);
    TotalOfAddValue(g, c);
  }

  /** The grouping loop, one row at a time in row order. */
  function GroupByTitle(rows: seq<Class>): (r: seq<Group>)
    ensures GroupsRows(rows, r)
    decreases |rows|
  {
    if |rows| == 0 then []
    else
      var init := rows[..|rows| - 1];
      var c := rows[|rows| - 1];
      var g := GroupByTitle(init);
      GroupStep(rows, g);
      AddValue(g, c)
  }

  /** messages.py `get_all_classes`: the class catalog as an ordered map from
      title to values. */
  function GetAllClasses(db: Store): (r: seq<Group>)
    ensures GroupsRows(db.catalog, r)
  {
    GroupByTitle(db.catalog)
  }

  /** Whether the ordered map holds `c.value` under `c.title`: the test
      `title in all_classes and value in all_classes[title]`. */
  predicate Offers(groups: seq<Group>, c: Class) {
    exists i :: 0 <= i < |groups| && groups[i].title == c.title && c.value in groups[i].values
  }

  /** The map built from the catalog offers a pair exactly when the pair is a
      catalog row. */
  lemma OffersIffCatalogRow(rows: seq<Class>, groups: seq<Group>, c: Class)
    requires GroupsRows(rows, groups)
    ensures Offers(groups, c) <==> c in rows
  {
    if c in rows {
      var i :| 0 <= i < |groups| && Keys(groups)[i] == c.title;
      assert c.value in ValuesFor(rows, c.title);
    }
    if Offers(groups, c) {
      var i :| 0 <= i < |groups| && groups[i].title == c.title && c.value in groups[i].values;
      assert c.value in ValuesFor(rows, c.title);
    }
  }

  /** `q` occurs in `s` as a contiguous run: `LIKE '%q%'` without case
      folding or wildcards inside `q`. */
  predicate Contains(s: string, q: string)
    decreases |s|
  {
    q <= s || (|s| > 0 && Contains(s[1..], q))
  }

  /** `q` occurs in `s` starting at position `i`. */
  ghost predicate OccursAt(s: string, q: string, i: int) {
    0 <= i && i + |q| <= |s| && s[i..i + |q|] == q
  }

  /** The scan agrees with the positional definition of an occurrence. */
  lemma {:induction false} ContainsIffOccurs(s: string, q: string)
    ensures Contains(s, q) <==> exists i :: OccursAt(s, q, i)
    decreases |s|
  {
    if q <= s {
      assert s[0..|q|] == q;
      assert OccursAt(s, q, 0);
    }
    if |s| > 0 {
      ContainsIffOccurs(s[1..], q);
      if exists i :: OccursAt(s[1..], q, i) {
        var i :| OccursAt(s[1..], q, i);
        assert s[1..][i..i + |q|] == s[i + 1..i + 1 + |q|];
        assert OccursAt(s, q, i + 1);
      }
      if exists i :: OccursAt(s, q, i) {
        var i :| OccursAt(s, q, i);
        if i > 0 {
          assert s[1..][i - 1..i - 1 + |q|] == s[i..i + |q|];
          assert OccursAt(s[1..], q, i - 1);
        } else {
          assert q == s[..|q|];
        }
      }
    } else {
      if exists i :: OccursAt(s, q, i) {
        var i :| OccursAt(s, q, i);
        assert q == [];
      }
    }
  }

  predicate Matches(a: Ad, query: string) {
    Contains(a.title, query) || Contains(a.description, query)
  }

  function HitOf(a: Ad): SearchHit {
    SearchHit(a.id, a.title)
  }

  /** messages.py `find_messages`: exactly the ads whose title or
      description contains the query, newest first. */
  function FindMessages(db: Store, query: string): (r: seq<SearchHit>)
    ensures forall a :: a in db.ads && Matches(a, query) ==> HitOf(a) in r
    ensures forall v :: v in r ==> exists a :: a in db.ads && Matches(a, query) && v == HitOf(a)
    ensures Valid(db) ==> forall i, j :: 0 <= i < j < |r| ==> r[i].id > r[j].id
  {
    Rows.NewestFirst(db.ads, (a: Ad) => Matches(a, query), HitOf, (a: Ad) => a.id, (v: SearchHit) => v.id)
  }

  /** An empty query (`LIKE '%%'`) matches every ad. */
  lemma EmptyQueryMatchesEverything(db: Store)
    ensures forall a :: a in db.ads ==> HitOf(a) in FindMessages(db, "")
  {
    forall a | a in db.ads ensures Matches(a, "") {
      assert "" <= a.title;
    }
  }
}
