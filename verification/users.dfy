/** The user directory (users.py): lookups, registration, the login check and
    field-replacing profile updates over the `users` table. */
module Users {
  import opened Wrappers
  import opened Db
  import Rows

  /** What `get_user` selects: id, username, age and bio (never the password). */
  datatype Profile = Profile(id: Id, username: string, age: Option<string>, bio: Option<string>)

  /** A row of `get_messages(user_id)`: one of the user's ads. */
  datatype UserAd = UserAd(id: Id, title: string, description: string)

  function ProfileOf(u: User): Profile {
    Profile(u.id, u.username, u.age, u.bio)
  }

  /** users.py `get_user`: the profile of the user with this id, or None. */
  function GetUser(db: Store, userId: Id): (r: Option<Profile>)
    ensures r.None? <==> forall u :: u in db.users ==> u.id != userId
    ensures r.Some? ==> exists u :: u in db.users && u.id == userId && r.value == ProfileOf(u)
    ensures Valid(db) ==> forall u :: u in db.users && u.id == userId ==> r == Some(ProfileOf(u))
  {
    match FindUser(db.users, userId)
    case None => None
    case Some(u) => Some(ProfileOf(u))
  }

  function UserAdOf(a: Ad): UserAd {
    UserAd(a.id, a.title, a.description)
  }

  /** users.py `get_messages`: exactly the ads owned by `userId`, newest first. */
  function GetMessages(db: Store, userId: Id): (r: seq<UserAd>)
    ensures forall a :: a in db.ads && a.userId == userId ==> UserAdOf(a) in r
    ensures forall v :: v in r ==> exists a :: a in db.ads && a.userId == userId && v == UserAdOf(a)
    ensures Valid(db) ==> forall i, j :: 0 <= i < j < |r| ==> r[i].id > r[j].id
  {
    Rows.NewestFirst(db.ads, (a: Ad) => a.userId == userId, UserAdOf, (a: Ad) => a.id, (v: UserAd) => v.id)
  }

  /** users.py `create_user`: appends a row under a fresh id and returns the id.
      The row starts without an image. */
  function CreateUser(db: Store, username: string, password: string,
                      age: Option<string>, bio: Option<string>): (r: (Store, Id))
    ensures r.0 == db.(users := r.0.users, nextUser := r.0.nextUser)
    ensures r.0.users == db.users + [User(r.1, username, password, age, bio, None)]
    ensures Valid(db) ==> Valid(r.0) && forall u :: u in db.users ==> u.id != r.1
  {
    var id := db.nextUser;
    (db.(users := db.users + [User(id, username, password, age, bio, None)], nextUser := id + 1), id)
  }

  /** A registered user can be looked up under the id registration returned. */
  lemma CreateThenGet(db: Store, username: string, password: string, age: Option<string>, bio: Option<string>)
    requires Valid(db)
    ensures var (db', id) := CreateUser(db, username, password, age, bio);
            GetUser(db', id) == Some(Profile(id, username, age, bio))
  {
    var (db', id) := CreateUser(db, username, password, age, bio);
    assert User(id, username, password, age, bio, None) in db'.users;
  }

  /** The first user row whose username and password both match. */
  function FindLogin(users: seq<User>, username: string, password: string): (r: Option<User>)
    ensures r.Some? ==> r.value in users && r.value.username == username && r.value.password == password
    ensures r.None? <==> forall u :: u in users ==> !(u.username == username && u.password == password)
  {
    if |users| == 0 then None
    else if users[0].username == username && users[0].password == password then Some(users[0])
    else FindLogin(users[1..], username, password)
  }

  /** users.py `check_login`: the id of a row matching both username and
      password (compared as stored), or None when no row matches both. */
  function CheckLogin(db: Store, username: string, password: string): (r: Option<Id>)
    ensures r.Some? <==> exists u :: u in db.users && u.username == username && u.password == password
    ensures r.Some? ==> exists u :: u in db.users && u.id == r.value && u.username == username && u.password == password
  {
    match FindLogin(db.users, username, password)
    case None => None
    case Some(u) => Some(u.id)
  }

  /** Registering makes the credentials log in. */
  lemma CreateThenLogin(db: Store, username: string, password: string, age: Option<string>, bio: Option<string>)
    ensures var (db', id) := CreateUser(db, username, password, age, bio);
            CheckLogin(db', username, password).Some?
  {
    var (db', id) := CreateUser(db, username, password, age, bio);
    assert db'.users[|db'.users| - 1] in db'.users;
  }

  /** users.py `update_profile`: sets age and bio on the rows with this id. */
  function UpdateProfile(db: Store, userId: Id, age: Option<string>, bio: Option<string>): (r: Store)
    ensures r == db.(users := r.users)
    ensures |r.users| == |db.users|
    ensures forall i :: 0 <= i < |db.users| ==>
      r.users[i].(age := db.users[i].age, bio := db.users[i].bio) == db.users[i]
    ensures forall i :: 0 <= i < |db.users| && db.users[i].id == userId ==>
      r.users[i].age == age && r.users[i].bio == bio
    ensures forall i :: 0 <= i < |db.users| && db.users[i].id != userId ==> r.users[i] == db.users[i]
  {
    var users := seq(|db.users|, i requires 0 <= i < |db.users| =>
      if db.users[i].id == userId then db.users[i].(age := age, bio := bio) else db.users[i]);
    db.(users := users)
  }

  /** users.py `update_image`: replaces the image of the rows with this id. */
  function UpdateImage(db: Store, userId: Id, image: seq<bv8>): (r: Store)
    ensures r == db.(users := r.users)
    ensures |r.users| == |db.users|
    ensures forall i :: 0 <= i < |db.users| ==> r.users[i].(image := db.users[i].image) == db.users[i]
    ensures forall i :: 0 <= i < |db.users| && db.users[i].id == userId ==> r.users[i].image == Some(image)
    ensures forall i :: 0 <= i < |db.users| && db.users[i].id != userId ==> r.users[i] == db.users[i]
  {
    var users := seq(|db.users|, i requires 0 <= i < |db.users| =>
      if db.users[i].id == userId then db.users[i].(image := Some(image)) else db.users[i]);
    db.(users := users)
  }

  /** users.py `get_image`: the stored image, or None when the user is absent
      or the image column is NULL or empty (Python treats empty bytes as false). */
  function GetImage(db: Store, userId: Id): (r: Option<seq<bv8>>)
    ensures r.Some? ==> |r.value| > 0 && exists u :: u in db.users && u.id == userId && u.image == Some(r.value)
    ensures (forall u :: u in db.users && u.id == userId ==> u.image.None? || u.image == Some([])) ==> r.None?
    ensures Valid(db) ==> forall u :: u in db.users && u.id == userId && u.image.Some? && |u.image.value| > 0 ==> r == u.image
  {
    match FindUser(db.users, userId)
    case Some(User(_, _, _, _, _, Some(bytes))) => if |bytes| > 0 then Some(bytes) else None
    case _ => None
  }

  /** Rewriting user rows in place without touching their ids keeps the store valid. */
  lemma SameUserIdsValid(db: Store, r: Store)
    requires Valid(db)
    requires r == db.(users := r.users) && |r.users| == |db.users|
    requires forall i :: 0 <= i < |db.users| ==> r.users[i].id == db.users[i].id
    ensures Valid(r)
  {
    forall u | u in r.users ensures u.id < r.nextUser {
      var k :| 0 <= k < |r.users| && r.users[k] == u;
      assert db.users[k] in db.users;
    }
  }

  /** A profile update round-trips through `get_user`: the new age and bio,
      the old id and username. */
  lemma UpdateProfileThenGet(db: Store, userId: Id, age: Option<string>, bio: Option<string>, u: User)
    requires Valid(db)
    requires u in db.users && u.id == userId
    ensures GetUser(UpdateProfile(db, userId, age, bio), userId) == Some(Profile(userId, u.username, age, bio))
  {
    var k :| 0 <= k < |db.users| && db.users[k] == u;
    var p := UpdateProfile(db, userId, age, bio);
    SameUserIdsValid(db, p);
    assert p.users[k] in p.users;
  }

  /** An image update round-trips through `get_image`, unless the new image
      is empty, which reads back as no image. */
  lemma UpdateImageThenGet(db: Store, userId: Id, image: seq<bv8>, u: User)
    requires Valid(db)
    requires u in db.users && u.id == userId
    ensures GetImage(UpdateImage(db, userId, image), userId) == (if |image| > 0 then Some(image) else None)
  {
    var k :| 0 <= k < |db.users| && db.users[k] == u;
    var m := UpdateImage(db, userId, image);
    SameUserIdsValid(db, m);
    assert m.users[k] in m.users;
  }
}
