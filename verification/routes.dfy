/** The request handlers of app.py that guard the data modules, as decision
    functions from a store and the request's inputs to the store the request
    leaves behind, or to the status it is refused with. Login, CSRF and form
    field presence are assumed to have passed; the logged-in user is a
    parameter. */
module Routes {
  import opened Wrappers
  import opened Db
  import Rows
  import Users
  import Threads
  import Messages
  import opened Validation

  /** How a request ends: it is served (a page, a redirect or an error text)
      leaving `db` behind, or it is refused with an HTTP status. */
  datatype Outcome = Served(db: Store) | Refused(status: nat)

  /** What `/message/<id>` renders. */
  datatype MessagePage = MessagePage(message: Messages.AdView, classes: seq<Class>,
                                     threads: seq<Threads.ThreadOverview>)

  /** Python truthiness of `session.get("user_id")`: absent and 0 are false. */
  predicate SignedIn(session: Option<Id>) {
    session.Some? && session.value != 0
  }

  /** The guard of app.py:157-159, app.py:180-182 and app.py:209-211: the ad
      must exist (joined with its owner) and belong to the session user;
      otherwise 403. */
  function OwnedAd(db: Store, messageId: Id, userId: Id): (r: Checked<Messages.AdView>)
    ensures r.Pass? ==> Messages.GetMessage(db, messageId) == Some(r.value) && r.value.userId == userId
    ensures r.Fail? ==> r.status == Forbidden
    ensures r.Fail? <==> Messages.GetMessage(db, messageId).None? || Messages.GetMessage(db, messageId).value.userId != userId
  {
    match Messages.GetMessage(db, messageId)
    case None => Fail(Forbidden)
    case Some(m) => if m.userId != userId then Fail(Forbidden) else Pass(m)
  }

  /** In a valid store the guard lets a user through exactly when an ad with
      that id exists, is theirs, and they have a user row. */
  lemma OwnedAdIffOwner(db: Store, messageId: Id, userId: Id)
    requires Valid(db)
    ensures OwnedAd(db, messageId, userId).Pass? <==>
            exists a :: a in db.ads && a.id == messageId && a.userId == userId && HasUser(db, userId)
  {
    if exists a :: a in db.ads && a.id == messageId && a.userId == userId && HasUser(db, userId) {
      var a :| a in db.ads && a.id == messageId && a.userId == userId && HasUser(db, userId);
      Messages.GetMessageFindsIt(db, messageId, a);
    }
  }

  /** app.py `create_message` (app.py:120-150) once the age has been judged
      by `ageOk`: title, description and age are each refused with 403, then
      each class entry is checked; the ad is added only when all pass. */
  function CreateChecked(db: Store, userId: Id, title: string, description: string, age: string,
                         entries: seq<string>, ageOk: bool): (r: Outcome)
    ensures r.Served? <==> ValidTitle(title) && ValidDescription(description) && ageOk
                           && forall e :: e in entries ==> EntryOk(Messages.GetAllClasses(db), e)
    ensures r.Refused? ==> r.status == (if !ValidTitle(title) || !ValidDescription(description) || !ageOk then Forbidden
                                        else ParseClasses(entries, Messages.GetAllClasses(db)).status)
    ensures r.Served? ==> r.db == Messages.AddMessage(db, title, description, age, userId,
                                     ParseClasses(entries, Messages.GetAllClasses(db)).value).0
  {
    if !ValidTitle(title) || !ValidDescription(description) || !ageOk then Refused(Forbidden)
    else match ParseClasses(entries, Messages.GetAllClasses(db))
      case Fail(s) => Refused(s)
      case Pass(classes) => Served(Messages.AddMessage(db, title, description, age, userId, classes).0)
  }

  /** app.py `create_message` as written: the age passes the `re.search`
      pattern of app.py:135, which also lets one trailing newline through. */
  function CreateMessageAsWritten(db: Store, userId: Id, title: string, description: string, age: string,
                                  entries: seq<string>): (r: Outcome)
    ensures r.Served? <==> ValidTitle(title) && ValidDescription(description) && AgeAcceptedAsWritten(age)
                           && forall e :: e in entries ==> EntryOk(Messages.GetAllClasses(db), e)
    ensures r.Refused? ==> r.status == (if !ValidTitle(title) || !ValidDescription(description) || !AgeAcceptedAsWritten(age) then Forbidden
                                        else ParseClasses(entries, Messages.GetAllClasses(db)).status)
    ensures r.Served? ==> r.db == Messages.AddMessage(db, title, description, age, userId,
                                     ParseClasses(entries, Messages.GetAllClasses(db)).value).0
  {
    CreateChecked(db, userId, title, description, age, entries, AgeAcceptedAsWritten(age))
  }

  /** app.py `create_message` as intended: the age must be the whole of one
      to three digits without a leading zero. */
  function CreateMessage(db: Store, userId: Id, title: string, description: string, age: string,
                         entries: seq<string>): (r: Outcome)
    ensures r.Served? <==> ValidTitle(title) && ValidDescription(description) && AgeAccepted(age)
                           && forall e :: e in entries ==> EntryOk(Messages.GetAllClasses(db), e)
    ensures r.Refused? ==> r.status == (if !ValidTitle(title) || !ValidDescription(description) || !AgeAccepted(age) then Forbidden
                                        else ParseClasses(entries, Messages.GetAllClasses(db)).status)
    ensures r.Served? ==> r.db == Messages.AddMessage(db, title, description, age, userId,
                                     ParseClasses(entries, Messages.GetAllClasses(db)).value).0
  {
    CreateChecked(db, userId, title, description, age, entries, AgeAccepted(age))
  }

  /** As written, an age with a trailing newline is stored: the request with
      age "7\n" is served and the new ad carries that age, where the
      intended check refuses it with 403. */
  lemma CreateAsWrittenStoresNewlineAge(db: Store, userId: Id)
    ensures CreateMessageAsWritten(db, userId, "t", "d", "7\n", []).Served?
    ensures var r := CreateMessageAsWritten(db, userId, "t", "d", "7\n", []).db;
            r.ads == db.ads + [Ad(db.nextAd, "t", "d", "7\n", userId)]
    ensures CreateMessage(db, userId, "t", "d", "7\n", []) == Refused(Forbidden)
  {
    AgeTrailingNewline();
  }

  /** The two age checks differ only on a trailing newline: for any other
      age the handler as written and as intended decide alike. */
  lemma CreateMessageAgreesWithoutNewline(db: Store, userId: Id, title: string, description: string, age: string,
                                          entries: seq<string>)
    requires age == [] || age[|age| - 1] != '\n'
    ensures CreateMessageAsWritten(db, userId, title, description, age, entries)
         == CreateMessage(db, userId, title, description, age, entries)
  {
    AgeAsWrittenIsIntendedOrNewline(age);
  }

  /** A created ad's tags are catalog rows, exactly the non-empty entries in
      form order, whichever age test let the request through: this covers
      the handler as written and the corrected one alike. */
  lemma CreateMessageTags(db: Store, userId: Id, title: string, description: string, age: string,
                          entries: seq<string>, ageOk: bool)
    requires Valid(db)
    requires CreateChecked(db, userId, title, description, age, entries, ageOk).Served?
    ensures var r := CreateChecked(db, userId, title, description, age, entries, ageOk).db;
            var tags := Messages.GetClasses(r, db.nextAd);
            && (forall c :: c in tags ==> c in db.catalog)
            && Rows.Select(tags, (c: Class) => true, Render) == NonEmpty(entries)
  {
    var groups := Messages.GetAllClasses(db);
    var classes := ParseClasses(entries, groups).value;
    Messages.AddThenGetClasses(db, title, description, age, userId, classes);
    AcceptedPairsAreCatalogRows(db, entries);
    ParseClassesKeepsEntries(entries, groups);
  }

  /** The checks of app.py `update_message` (app.py:177-197), in order: the
      owner guard, title and description, then the class entries. */
  function UpdateChecks(db: Store, userId: Id, messageId: Id, title: string, description: string,
                        entries: seq<string>): (r: Checked<seq<Class>>)
    ensures r.Pass? <==> OwnedAd(db, messageId, userId).Pass? && ValidTitle(title) && ValidDescription(description)
                         && ParseClasses(entries, Messages.GetAllClasses(db)).Pass?
    ensures r.Pass? ==> r.value == ParseClasses(entries, Messages.GetAllClasses(db)).value
    ensures r.Fail? ==> r.status == (if OwnedAd(db, messageId, userId).Fail? || !ValidTitle(title) || !ValidDescription(description)
                                     then Forbidden
                                     else ParseClasses(entries, Messages.GetAllClasses(db)).status)
  {
    if OwnedAd(db, messageId, userId).Fail? then Fail(Forbidden)
    else if !ValidTitle(title) || !ValidDescription(description) then Fail(Forbidden)
    else ParseClasses(entries, Messages.GetAllClasses(db))
  }

  /** app.py `update_message` as written: after the checks it calls
      `messages.update_message` with four arguments while the function takes
      five, which raises TypeError. */
  function UpdateMessageAsWritten(db: Store, userId: Id, messageId: Id, title: string, description: string,
                                  entries: seq<string>): (r: Outcome)
    ensures UpdateChecks(db, userId, messageId, title, description, entries).Fail? ==>
            r == Refused(UpdateChecks(db, userId, messageId, title, description, entries).status)
    ensures UpdateChecks(db, userId, messageId, title, description, entries).Pass? ==> r == Refused(ServerError)
  {
    match UpdateChecks(db, userId, messageId, title, description, entries)
    case Fail(s) => Refused(s)
    case Pass(_) => Refused(ServerError)
  }

  /** As written, no update request is ever served: an ad cannot be edited. */
  lemma UpdateAsWrittenNeverServes(db: Store, userId: Id, messageId: Id, title: string, description: string,
                                   entries: seq<string>)
    ensures UpdateMessageAsWritten(db, userId, messageId, title, description, entries).Refused?
    ensures UpdateChecks(db, userId, messageId, title, description, entries).Pass? ==>
            UpdateMessageAsWritten(db, userId, messageId, title, description, entries) == Refused(ServerError)
  {
  }

  /** app.py `update_message` as intended: the same checks, then the update
      with the session user as owner. */
  function UpdateMessage(db: Store, userId: Id, messageId: Id, title: string, description: string,
                         entries: seq<string>): (r: Outcome)
    ensures r.Served? <==> UpdateChecks(db, userId, messageId, title, description, entries).Pass?
    ensures r.Served? ==> r.db == Messages.UpdateMessage(db, messageId, userId, title, description,
                                   UpdateChecks(db, userId, messageId, title, description, entries).value)
  {
    match UpdateChecks(db, userId, messageId, title, description, entries)
    case Fail(s) => Refused(s)
    case Pass(classes) => Served(Messages.UpdateMessage(db, messageId, userId, title, description, classes))
  }

  /** A served update gives the ad exactly the submitted classes, all of
      them catalog rows; other ads keep their classes. */
  lemma UpdateMessageServedClasses(db: Store, userId: Id, messageId: Id, title: string, description: string,
                                   entries: seq<string>)
    requires UpdateMessage(db, userId, messageId, title, description, entries).Served?
    ensures var r := UpdateMessage(db, userId, messageId, title, description, entries).db;
            var classes := ParseClasses(entries, Messages.GetAllClasses(db)).value;
            && Messages.GetClasses(r, messageId) == classes
            && (forall c :: c in classes ==> c in db.catalog)
            && (forall other :: other != messageId ==> Messages.GetClasses(r, other) == Messages.GetClasses(db, other))
  {
    var classes := ParseClasses(entries, Messages.GetAllClasses(db)).value;
    Messages.UpdateThenGetClasses(db, messageId, userId, title, description, classes);
    AcceptedPairsAreCatalogRows(db, entries);
  }

  /** In a valid store a served update rewrites the title and description of
      the ad, since the guard has shown the session user owns it. */
  lemma UpdateMessageServedText(db: Store, userId: Id, messageId: Id, title: string, description: string,
                                entries: seq<string>)
    requires Valid(db)
    requires UpdateMessage(db, userId, messageId, title, description, entries).Served?
    ensures var r := UpdateMessage(db, userId, messageId, title, description, entries).db;
            forall a :: a in r.ads && a.id == messageId ==> a.title == title && a.description == description
  {
    OwnedAdIffOwner(db, messageId, userId);
    var classes := UpdateChecks(db, userId, messageId, title, description, entries).value;
    Messages.UpdateThenText(db, messageId, userId, title, description, classes);
  }

  /** What a remove request carries: a GET, or a POST whose form may hold a
      "back" field, a "remove" field, both or neither. */
  datatype RemoveForm = ShowConfirm | Posted(back: bool, remove: bool)

  /** app.py `remove_message` (app.py:203-225): the owner guard, then a GET
      shows the confirmation page; on a POST "back" is tested first, so it
      wins over "remove", and a form with neither changes nothing. */
  function RemoveMessage(db: Store, userId: Id, messageId: Id, form: RemoveForm): (r: Outcome)
    ensures OwnedAd(db, messageId, userId).Fail? <==> r == Refused(Forbidden)
    ensures OwnedAd(db, messageId, userId).Pass? ==> r.Served?
    ensures r.Served? && !(form.Posted? && !form.back && form.remove) ==> r.db == db
    ensures r.Served? && form.Posted? && !form.back && form.remove ==>
            r.db == Messages.RemoveMessage(db, messageId, userId)
  {
    if OwnedAd(db, messageId, userId).Fail? then Refused(Forbidden)
    else match form
      case ShowConfirm => Served(db)
      case Posted(back, remove) =>
        if back then Served(db)
        else if remove then Served(Messages.RemoveMessage(db, messageId, userId))
        else Served(db)
  }

  /** Through the route, the cascade only ever runs for the ad's owner, so
      the owner's ad row goes along with its tags and threads. */
  lemma RemoveRouteOnlyForOwner(db: Store, userId: Id, messageId: Id, form: RemoveForm)
    requires Valid(db)
    requires RemoveMessage(db, userId, messageId, form).Served?
    requires RemoveMessage(db, userId, messageId, form).db != db
    ensures exists a :: a in db.ads && a.id == messageId && a.userId == userId
    ensures Messages.GetMessage(RemoveMessage(db, userId, messageId, form).db, messageId).None?
    ensures Messages.GetClasses(RemoveMessage(db, userId, messageId, form).db, messageId) == []
  {
    var m := OwnedAd(db, messageId, userId).value;
    var a :| a in db.ads && Messages.Shown(db, messageId, a) && m == Messages.AdViewOf(db, a);
    Messages.RemoveThenGetMessage(db, messageId, userId, a);
    Messages.RemoveThenNoClasses(db, messageId, userId);
  }

  /** app.py `start_thread` (app.py:279-294): 404 for a missing ad, 403 when
      the owner asks to talk to themself, otherwise the thread id from
      `get_or_create_thread`. */
  function StartThread(db: Store, userId: Id, messageId: Id): (r: Checked<(Store, Id)>)
    ensures Messages.GetMessage(db, messageId).None? ==> r == Fail(NotFound)
    ensures Messages.GetMessage(db, messageId).Some? && Messages.GetMessage(db, messageId).value.userId == userId ==>
            r == Fail(Forbidden)
    ensures Messages.GetMessage(db, messageId).Some? && Messages.GetMessage(db, messageId).value.userId != userId ==>
            r.Pass?
    ensures r.Pass? ==> Messages.GetMessage(db, messageId).Some?
                        && Messages.GetMessage(db, messageId).value.userId != userId
                        && r.value == Threads.GetOrCreateThread(db, messageId, userId, Messages.GetMessage(db, messageId).value.userId)
  {
    match Messages.GetMessage(db, messageId)
    case None => Fail(NotFound)
    case Some(m) =>
      if m.userId == userId then Fail(Forbidden)
      else Pass(Threads.GetOrCreateThread(db, messageId, userId, m.userId))
  }

  /** The same user starting the same conversation a second time lands in
      the thread the first start returned, and nothing changes. */
  lemma StartThreadTwice(db: Store, userId: Id, messageId: Id)
    requires StartThread(db, userId, messageId).Pass?
    ensures var (db1, id1) := StartThread(db, userId, messageId).value;
            && StartThread(db1, userId, messageId).Pass?
            && StartThread(db1, userId, messageId).value == (db1, id1)
  {
    var owner := Messages.GetMessage(db, messageId).value.userId;
    var (db1, id1) := Threads.GetOrCreateThread(db, messageId, userId, owner);
    Threads.FirstCallSettles(db, messageId, userId, owner, false);
    assert Threads.CallOnce(db, messageId, userId, owner, false) == (db1, id1);
    assert db1.ads == db.ads && db1.users == db.users;
    Rows.FirstAgrees(db.ads, (a: Ad) => Messages.Shown(db, messageId, a), (a: Ad) => Messages.Shown(db1, messageId, a));
  }

  /** app.py `send_message` (app.py:306-317): content that `strip()` empties
      changes nothing; anything else is appended to the thread as sent now. */
  function SendMessage(db: Store, userId: Id, threadId: Id, content: string, now: int): (r: Store)
    ensures Blank(content) ==> r == db
    ensures !Blank(content) ==> r == Threads.SendMessage(db, threadId, userId, content, now)
  {
    StripEmptyIffBlank(content);
    if Strip(content) == [] then db
    else Threads.SendMessage(db, threadId, userId, content, now)
  }

  /** A non-blank message from a user with a row shows up last in the
      thread's listing when the clock has not gone back. */
  lemma SendThenShown(db: Store, userId: Id, threadId: Id, content: string, now: int, viewer: Id)
    requires HasUser(db, userId) && !Blank(content)
    requires forall p :: p in db.posts && p.threadId == threadId ==> p.createdAt <= now
    ensures var r := SendMessage(db, userId, threadId, content, now);
            Threads.GetMessages(r, threadId, viewer)
              == Threads.GetMessages(db, threadId, viewer) + [Threads.Line(db.nextPost, threadId, userId, NameOf(db, userId), content, now)]
  {
    Threads.SendThenListed(db, threadId, userId, content, now, viewer);
  }

  /** app.py `show_message` (app.py:90-109): 404 for a missing ad; otherwise
      the ad, its classes, and its threads only when the signed-in user owns
      it. */
  function ShowMessage(db: Store, session: Option<Id>, messageId: Id): (r: Checked<MessagePage>)
    ensures r.Fail? <==> Messages.GetMessage(db, messageId).None?
    ensures r.Fail? ==> r.status == NotFound
    ensures r.Pass? ==> r.value.message == Messages.GetMessage(db, messageId).value
                        && r.value.classes == Messages.GetClasses(db, messageId)
    ensures r.Pass? && !(SignedIn(session) && session.value == r.value.message.userId) ==> r.value.threads == []
    ensures r.Pass? && SignedIn(session) && session.value == r.value.message.userId ==>
            r.value.threads == Threads.GetThreadsByMessage(db, messageId)
  {
    match Messages.GetMessage(db, messageId)
    case None => Fail(NotFound)
    case Some(m) =>
      var threads := if SignedIn(session) && session.value == m.userId then Threads.GetThreadsByMessage(db, messageId) else [];
      Pass(MessagePage(m, Messages.GetClasses(db, messageId), threads))
  }

  /** Whoever sees a thread listed on an ad page owns that ad and takes part
      in the thread's ad; nobody else sees any. */
  lemma ShowMessageThreadsOnlyForOwner(db: Store, session: Option<Id>, messageId: Id)
    requires Valid(db)
    requires ShowMessage(db, session, messageId).Pass?
    requires ShowMessage(db, session, messageId).value.threads != []
    ensures SignedIn(session)
    ensures exists a :: a in db.ads && a.id == messageId && a.userId == session.value
    ensures forall v :: v in ShowMessage(db, session, messageId).value.threads ==>
              exists t :: t in db.threads && t.adId == messageId && t.id == v.id
  {
  }

  /** app.py `find_message` (app.py:82-87): no query or an empty one lists
      nothing; otherwise the search results. */
  function FindMessage(db: Store, query: Option<string>): (r: seq<Messages.SearchHit>)
    ensures query.None? || query.value == "" ==> r == []
    ensures query.Some? && query.value != "" ==> r == Messages.FindMessages(db, query.value)
  {
    match query
    case Some(q) => if q == "" then [] else Messages.FindMessages(db, q)
    case None => []
  }

  /** app.py `create` as written (app.py:234-251): mismatched passwords get an
      error text; matching ones reach `users.create_user` with two arguments
      while it takes four, which raises TypeError. */
  function RegisterAsWritten(db: Store, username: string, password1: string, password2: string): (r: Outcome)
    ensures password1 != password2 ==> r == Served(db)
    ensures password1 == password2 ==> r == Refused(ServerError)
  {
    if password1 != password2 then Served(db) else Refused(ServerError)
  }

  /** As written, registration never adds a user. */
  lemma RegisterAsWrittenAddsNoUser(db: Store, username: string, password1: string, password2: string)
    ensures var r := RegisterAsWritten(db, username, password1, password2);
            r.Refused? || r.db.users == db.users
    ensures password1 == password2 ==> RegisterAsWritten(db, username, password1, password2) == Refused(ServerError)
  {
  }

  /** app.py `create` as intended: the registration form has no age or bio,
      so the user row gets neither. */
  function Register(db: Store, username: string, password1: string, password2: string): (r: Outcome)
    ensures password1 != password2 ==> r == Served(db)
    ensures password1 == password2 ==> r == Served(Users.CreateUser(db, username, password1, None, None).0)
  {
    if password1 != password2 then Served(db)
    else Served(Users.CreateUser(db, username, password1, None, None).0)
  }

  /** After registering with matching passwords the credentials log in. */
  lemma RegisterThenLogin(db: Store, username: string, password: string)
    ensures Register(db, username, password, password).Served?
    ensures Users.CheckLogin(Register(db, username, password, password).db, username, password).Some?
  {
    Users.CreateThenLogin(db, username, password, None, None);
  }
}
