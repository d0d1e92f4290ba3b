# Friend App core in Dafny

Friend App is a classified-ads web application. Users register and post
ads, which the code calls "messages". An ad carries a title, a
description, an age and zero or more classification tags such as
`Sport:Chess`. Users search the ads and talk to an ad's owner in
conversation threads, one thread per ad and pair of users. Each thread
holds chat lines that carry a read flag.

This project models the four core modules as pure functions over an
immutable store, and proves what they promise:

- the conversation engine (`threads.py`),
- the ad catalog (`messages.py`),
- the user directory (`users.py`),
- the validation and authorisation logic of the request handlers in
  `app.py` that create, update, remove, show and search ads, start
  threads, send chat lines and register users.

Layout, one Dafny module per file:

- `wrappers.dfy`: `Option`.
- `rows.dfy`: relational building blocks.
  - `Select` models `SELECT … WHERE`.
  - `First` models `result[0] if result else None`.
  - `NewestFirst` models `ORDER BY id DESC` on a table stored in ascending id order.
- `db.dfy`: the tables, the store and its validity invariant.
  - There is one sequence per table, in storage order.
  - There is one id counter per table, modelling the id a row insert returns.
  - `Valid`: ids are strictly ascending and below their counter.
- `users.dfy`, `threads.dfy`, `messages.dfy`: the three data modules.
- `validation.dfy`: the input checks of the request handlers.
  - title and description lengths;
  - the age pattern;
  - `title:value` class entries;
  - Python's `str.strip`.
- `routes.dfy`: the request handlers as decision functions of a store and the request's inputs.
  - The handlers that change data (create, update, remove, register) return the new store, or the HTTP status the request is refused with (403 or 500).
  - `StartThread` returns the store together with the thread id, or 404 or 403.
  - `SendMessage` always returns a store: blank content leaves it unchanged.
  - The page handlers return what they show: `ShowMessage` the ad page or 404, and `FindMessage` the search results, never refused.

Behaviour of the code worth knowing, which the model keeps:

- Passwords are stored and compared exactly as given.
- Sending a chat line does not check that the sender belongs to the thread.
- Listing a thread's lines does not check who asks.
- No handler calls `mark_thread_as_read`, so opening a thread marks nothing read.
- `remove_message` deletes the ad's tags, threads and chat lines for any caller; only the final delete of the ad row checks the owner.

## Model

| member | source | states |
|---|---|---|
| Users.GetUser | users.py:8-12 | None exactly when no user has the id; otherwise the profile (id, username, age, bio) of a user with that id, and in a valid store the profile of that one user |
| Users.GetMessages | users.py:15-23 | exactly the ads the user owns, as (id, title, description), in strictly descending id order in a valid store |
| Users.CreateUser | users.py:26-29 | appends one user row with the given fields and no image under an id no existing user has; no other table changes; validity is kept |
| Users.CreateThenGet | users.py:26-29 | after creating a user, looking up the returned id yields the profile just written |
| Users.CheckLogin | users.py:32-36 | Some exactly when some user has that username and that password, and then the id of such a user |
| Users.CreateThenLogin | users.py:32-36 | a user just created can log in with the same username and password |
| Users.UpdateProfile | users.py:39-42 | age and bio replaced in the rows with that id, all other fields and rows untouched |
| Users.UpdateProfileThenGet | users.py:39-42 | reading the profile back after an update yields the new age and bio with the old username |
| Users.UpdateImage | users.py:45-48 | the image replaced in the rows with that id, everything else untouched |
| Users.GetImage | users.py:51-55 | only a non-empty stored image is returned; a missing or empty image gives None |
| Users.UpdateImageThenGet | users.py:45-55 | reading the image back after an upload yields it, or None when the upload was empty |
| Threads.GetThreadsByMessage | threads.py:9-21 | exactly the threads of the ad whose two participants exist, with both names, newest first in a valid store |
| Threads.GetThread | threads.py:24-32 | None exactly when no thread has the id, otherwise a thread with that id |
| Threads.GetUserThreads | threads.py:35-51 | exactly the threads the user takes part in whose partner and ad exist, each showing the other participant's name and the ad title, newest first in a valid store |
| Threads.ThreadLines | threads.py:54-63 | exactly the thread's chat lines whose sender exists, each with the sender's name |
| Threads.InsertByTime | threads.py:61 | inserting one line adds exactly that line to the multiset of lines |
| Threads.InsertKeepsChronological | threads.py:61 | inserting into a chronological list keeps it chronological |
| Threads.SortByTime | threads.py:61 | the result is a permutation of the input in non-decreasing time order |
| Threads.SortChronological | threads.py:61 | lines already in time order are left as they are, so equal times keep storage order |
| Threads.GetMessages | threads.py:54-63 | a permutation of exactly the thread's lines, in non-decreasing time order |
| Threads.GetMessagesInStorageOrder | threads.py:54-63 | when timestamps never decrease in storage order, the listing is the storage order itself |
| Threads.MarkThreadAsRead | threads.py:66-73 | only read flags change; a line becomes read iff it is in the thread and not sent by the reader, and every other line keeps its flag |
| Threads.MarkThreadAsReadIdempotent | threads.py:66-73 | marking twice equals marking once |
| Threads.MarkThreadAsReadValid | threads.py:66-73 | marking keeps the store valid |
| Threads.SendMessage | threads.py:95-101 | appends exactly one unread line with the next id, the sender, the content and the supplied clock value; nothing else changes; validity is kept |
| Threads.SortAppendLatest | threads.py:61 | a line no older than every other line is listed last |
| Threads.SendThenListed | threads.py:95-101 | after sending, the thread listing is the old listing followed by the new line |
| Threads.FindThread | threads.py:81-86 | finds a thread of the ad joining the two users in either order, None exactly when there is none |
| Threads.FindThreadSymmetric | threads.py:81-86 | the lookup does not depend on which user is named first |
| Threads.GetOrCreateThread | threads.py:76-92 | an existing thread for the ad and pair is returned with the store unchanged; otherwise one thread (user, owner, ad) is appended under a fresh id; validity is kept |
| Threads.GetOrCreateKeepsOneThreadPerPair | threads.py:76-92 | at most one thread per ad and unordered pair before implies the same after |
| Threads.WhereKeepsOneThreadPerPair | messages.py:65-69 | deleting any threads keeps at most one thread per ad and pair |
| Threads.OneThreadPerPairUnique | threads.py:81-88 | under that invariant the thread joining a pair is unique |
| Threads.CallsAfterFound | threads.py:87-88 | once a thread exists, any sequence of calls in either order changes nothing and returns its id every time |
| Threads.FirstCallSettles | threads.py:76-92 | after one call a thread for the pair exists, at most one row was added, and earlier rows are kept |
| Threads.RepeatedCallsShareOneThread | threads.py:76-92 | any sequence of calls, with the users in either order, returns one and the same thread id and adds at most one thread |
| Messages.GetMessages | messages.py:14-22 | exactly the ads whose owner exists, with owner name and age, newest first in a valid store |
| Messages.GetMessage | messages.py:25-34 | None exactly when no ad with the id has an existing owner; otherwise such an ad |
| Messages.GetMessageFindsIt | messages.py:25-34 | in a valid store, an ad with that id and an existing owner is the one returned |
| Messages.GetClasses | messages.py:87-91 | exactly the (title, value) pairs tagged on the ad |
| Messages.AddClassToMessage | messages.py:8-11 | appends exactly one tag row, nothing else changes |
| Messages.AddClasses | messages.py:42-43 | appends one tag per selected class, in order, for that ad, and keeps the earlier tags |
| Messages.AddClassesRows | messages.py:42-43 | a tag is present afterwards iff it was before or is one of the selected classes on that ad |
| Messages.ClassesAfterAdd | messages.py:42-43 | the ad's classes become the old ones followed by the selection; other ads' classes are unchanged |
| Messages.AddMessage | messages.py:37-45 | appends the ad under a fresh id and one tag per selected class; users, threads and lines are untouched; validity is kept |
| Messages.AddThenGetClasses | messages.py:37-45 | a newly added ad's classes are exactly the selection |
| Messages.AddThenGetMessage | messages.py:37-45 | a newly added ad of an existing user is found with the given title and description |
| Messages.RewriteAds | messages.py:50-51 | only title and description change, and only on the ad with that id owned by that user |
| Messages.DropTags | messages.py:53-54 | exactly the tags of other ads remain |
| Messages.UpdateMessage | messages.py:48-57 | ads rewritten only for the owner; tags of other ads preserved; no other table changes |
| Messages.UpdateThenGetClasses | messages.py:53-57 | after an update, the ad's classes are exactly the new selection, whoever called it; other ads' classes are unchanged |
| Messages.UpdateMessageValid | messages.py:48-57 | updating keeps the store valid |
| Messages.UpdateThenText | messages.py:50-51 | when the caller owns the ad, it carries the new title and description |
| Messages.UpdateByStranger | messages.py:48-57 | a caller who does not own the ad leaves the ads table unchanged, yet its tags are still replaced |
| Messages.ThreadIdsOf | messages.py:65 | exactly the ids of the threads about the ad |
| Messages.RemoveMessage | messages.py:60-72 | removes the ad's tags, its threads and their lines, and the ad only when the caller owns it; every other row stays |
| Messages.RemoveMessageCascades | messages.py:60-72 | no tag, thread or line of the ad remains afterwards |
| Messages.RemoveThenNoClasses | messages.py:62-63 | the ad's class listing is empty afterwards |
| Messages.RemoveThenNoThreads | messages.py:65-69 | the ad's thread listing is empty afterwards |
| Messages.RemoveThenNoLines | messages.py:65-69 | each former thread of the ad lists no lines afterwards |
| Messages.RemoveThenGetMessage | messages.py:71-72 | the owner's removal makes the ad not found; a stranger's removal leaves the ad row in place |
| Messages.RemoveMessageValid | messages.py:60-72 | removal keeps the store valid |
| Messages.RemoveMessageKeepsOneThreadPerPair | messages.py:65-69 | removing an ad keeps at most one thread per ad and unordered pair of users |
| Messages.RemoveThenNewThread | messages.py:65-69 | a thread started after removal is a new one, under an id no earlier thread had |
| Rows.IndexBy | messages.py:81 | the position of the first entry with the title: no earlier entry has it, and when none has it the count of entries is returned |
| Messages.AddValue | messages.py:80-83 | appends the value to the title's group, or opens a new group at the end; titles stay distinct; other groups unchanged |
| Messages.TotalOfAddValue | messages.py:80-83 | each step adds exactly one value |
| Messages.GroupStep | messages.py:80-83 | one loop step extends a grouping of the rows read so far to a grouping of one more row |
| Messages.GroupByTitle | messages.py:75-84 | groups cover exactly the rows' titles, with distinct titles in order of first appearance; each group holds that title's values in row order; the value count equals the row count |
| Messages.GetAllClasses | messages.py:75-84 | the grouping of the class catalog |
| Messages.Offers | app.py:145 | `class_title in all_classes and class_value in all_classes[class_title]` over the grouped catalog |
| Messages.OffersIffCatalogRow | messages.py:75-84 | a (title, value) pair is offered by the grouping iff it is a catalog row |
| Messages.Contains | messages.py:96-97 | `LIKE '%query%'` as a case-sensitive substring test |
| Messages.ContainsIffOccurs | messages.py:96-97 | the substring scan succeeds iff the query occurs at some position |
| Messages.FindMessages | messages.py:94-98 | exactly the ads whose title or description contains the query, as (id, title), newest first in a valid store |
| Messages.EmptyQueryMatchesEverything | messages.py:96-97 | the pattern `%%` matches every ad |
| Validation.ValidTitle | app.py:127 | a title is non-empty and at most 50 characters long |
| Validation.ValidDescription | app.py:131 | a description is non-empty and at most 1000 characters long |
| Validation.AgeAcceptedAsWritten | app.py:135 | what `re.search("^[1-9][0-9]{0,2}$")` accepts: one to three digits without a leading zero, optionally followed by one newline |
| Validation.AgeTrailingNewline | app.py:135 | the pattern as written accepts "7\n", which the intended full match rejects |
| Validation.AgeAsWrittenIsIntendedOrNewline | app.py:134-136 | the pattern as written accepts exactly the intended ages, plus each of them followed by one newline |
| Validation.AgeAcceptedIsOneTo999 | app.py:134-136 | the intended check accepts exactly the decimal spellings, without leading zeros, of 1 through 999 |
| Validation.SplitPair | app.py:144 | two-name unpacking succeeds only on exactly one colon, giving the text before and after it; no colon or two colons fail |
| Validation.SplitPairOfJoined | app.py:144 | joining a colon-free title and value with one colon splits back into them |
| Validation.EntryOk | app.py:143-146 | an entry is empty, or splits at its only colon into a title and value that the catalog offers |
| Validation.ParseClasses | app.py:142-147 | passes iff every non-empty entry splits into a pair the catalog offers; a failure names the first bad entry, with 500 for a bad split and 403 for an unknown pair |
| Validation.ParseClassesKeepsEntries | app.py:142-147 | on success, the accepted pairs rendered back as `title:value` are exactly the non-empty entries, in order |
| Validation.AcceptedPairsAreCatalogRows | app.py:145-146 | every accepted pair is a row of the class catalog |
| Validation.StripStart | app.py:313 | removes exactly the leading whitespace |
| Validation.StripEnd | app.py:313 | removes exactly the trailing whitespace |
| Validation.Strip | app.py:313 | Python's `strip()`: leading and then trailing whitespace removed |
| Validation.StripEmptyIffBlank | app.py:313-314 | content strips to nothing iff every character is whitespace |
| Routes.SignedIn | app.py:101 | Python truthiness of the session user id: absent and 0 are false |
| Routes.OwnedAd | app.py:157-159 | passes with the ad exactly when it is found and owned by the caller, else 403 |
| Routes.OwnedAdIffOwner | app.py:209-211 | in a valid store, the guard passes iff an ad with the id exists, is owned by the caller, and the owner exists |
| Routes.CreateChecked | app.py:120-150 | given the age verdict, the request is served iff title, description, age and every class entry pass; a bad title, description or age is refused with 403, otherwise a refusal carries the class check's status; when served, the ad is added with the parsed classes |
| Routes.CreateMessageAsWritten | app.py:120-150 | the handler as written, with the `re.search` age test: served iff title, description, that age test and every class entry pass; the same status mapping; when served, the ad is added |
| Routes.CreateMessage | app.py:120-150 | corrected handler: the same, with the age required to be the whole of one to three digits without a leading zero |
| Routes.CreateAsWrittenStoresNewlineAge | app.py:134-149 | as written, age "7\n" is served and stored on the new ad, where the corrected handler refuses it with 403 |
| Routes.CreateMessageAgreesWithoutNewline | app.py:134-136 | for any age not ending in a newline, the handler as written and the corrected one decide alike |
| Routes.CreateMessageTags | app.py:138-149 | a served creation, under either age test, tags the new ad with exactly the pairs from the non-empty entries, in form order, each a catalog row |
| Routes.UpdateChecks | app.py:177-197 | passes iff the caller owns the ad, the texts are valid and every class entry passes, and then with the parsed pairs; a failed guard or text check gives 403, otherwise the class check's status |
| Routes.UpdateMessageAsWritten | app.py:174-200 | refused with the check's status when a check fails, and with 500 otherwise |
| Routes.UpdateAsWrittenNeverServes | app.py:199 | the handler as written never changes the store: every request is refused, with 500 once the checks pass |
| Routes.UpdateMessage | app.py:174-200 | corrected handler: served iff the checks pass, and then the owner's ad is updated with the parsed classes |
| Routes.UpdateMessageServedClasses | app.py:189-199 | after a served update, the ad's classes are exactly the submitted pairs |
| Routes.UpdateMessageServedText | app.py:180-199 | after a served update, the ad carries the submitted title and description |
| Routes.RemoveMessage | app.py:203-225 | 403 exactly when the guard fails, and served whenever it passes; only a POST carrying "remove" and not "back" changes the store, by the catalog's removal, since "back" is tested first |
| Routes.RemoveRouteOnlyForOwner | app.py:206-223 | a removal that changes the store was made by the ad's owner and leaves the ad and its classes gone |
| Routes.StartThread | app.py:279-294 | 404 when the ad is not found, 403 when the caller owns it, and for anyone else it passes with the get-or-create result |
| Routes.StartThreadTwice | app.py:285-293 | starting the same conversation twice returns the same thread and changes nothing the second time |
| Routes.SendMessage | app.py:306-317 | whitespace-only content leaves the store unchanged; any other content is appended as a chat line |
| Routes.SendThenShown | app.py:313-316 | a sent line is listed last in its thread |
| Routes.ShowMessage | app.py:90-109 | 404 exactly when the ad is not found; the page shows the ad and its classes, and its threads only to the signed-in owner |
| Routes.ShowMessageThreadsOnlyForOwner | app.py:98-102 | a page that lists threads was requested by the ad's owner, and lists only that ad's threads |
| Routes.FindMessage | app.py:82-87 | a missing or empty query gives no results; otherwise the catalog search |
| Routes.RegisterAsWritten | app.py:234-251 | mismatched passwords leave the store unchanged; matching ones end in 500 |
| Routes.RegisterAsWrittenAddsNoUser | app.py:243-246 | the handler as written never adds a user: matching passwords end in 500 |
| Routes.Register | app.py:234-251 | corrected handler: matching passwords create the user with no age and no bio |
| Routes.RegisterThenLogin | app.py:237-248 | with the corrected handler, a user just registered can log in |

## Left out

- The database connection layer (`db.py`) is not part of this model. Each query is a function over the store, and each insert returns the table's next id.
- Row ids: the model never reuses an id. The table definitions are not part of this model, and SQLite without `AUTOINCREMENT` can hand out again the largest id after that row is deleted. `Messages.RemoveThenNewThread` relies on ids never being reused.
- The seed script (`seed.py`), `forum.py` and `items.py` are not part of this model.
- Sessions and the CSRF token are left out.
  - `require_login`, the redirects and the templates are left out.
  - The handlers that only render a page are left out: index, register form, profile, user threads, new message, and edit message beyond its ownership guard.
  - `login`, `logout` and `show_image` are left out because they act on the session or build an HTTP response. The credential check of `login` is `Users.CheckLogin`, and the image read of `show_image` is `Users.GetImage`. The session writes of `login` and the session clearing of `logout` are not modelled.
  - Reading `session["user_id"]` is a parameter.
  - A missing form field (HTTP 400) is not modelled.
- The profile-image upload checks in `app.py` (size and JPEG format) are left out; they are image-format I/O.
- `show_thread` is only `Threads.GetMessages` followed by rendering, so it has no member of its own.
- Clocks: `datetime.utcnow()` in `send_message` becomes the parameter `now`. Timestamps are integers rather than the stored text form.
- Threads.GetMessages: SQLite does not fix the order of lines with equal timestamps. The model lists them in storage order.
- Messages.FindMessages: SQLite's `LIKE` is case-insensitive for ASCII letters and treats `%` and `_` in the query as wildcards. The model matches the query as an exact, case-sensitive substring.
- Users.CreateUser: the UNIQUE constraint on usernames and the resulting `IntegrityError` branch (app.py:245-246) are not modelled. The table definitions are not part of this model, so a duplicate username is appended like any other.
- Threads.OneThreadPerPair: this invariant holds only for stores built by the modelled calls run one at a time. `get_or_create_thread` runs a SELECT and then an INSERT, each on its own connection, with no transaction and no unique key. So two `start_thread` requests running at the same time can both insert a thread for the same pair, and the seed script inserts random threads. `Threads.GetOrCreateKeepsOneThreadPerPair`, `Threads.RepeatedCallsShareOneThread` and `Messages.RemoveMessageKeepsOneThreadPerPair` treat each call as atomic and say nothing about such stores.
- Foreign-key enforcement is not modelled. The listings model the inner joins, so they skip rows whose user or ad is missing.
- Form values arrive as text and are matched against integer ids. The model takes them as ids, as SQLite's type affinity does.

## Findings

| source | as written | input that shows it | evidently intended | confidence | as-written member | corrected member |
|---|---|---|---|---|---|---|
| app.py:199 | `messages.update_message(message_id, title, description, classes_selected)` passes four arguments to a function of five (messages.py:48) | any update request that passes the ownership, length and class checks | `update_message(message_id, session["user_id"], title, description, classes_selected)`, so the owner's ad is updated | high, not executed | Routes.UpdateAsWrittenNeverServes | Routes.UpdateMessageServedClasses |
| app.py:244 | `users.create_user(username, password1)` passes two arguments to a function of four (users.py:26) | any registration with matching passwords | `create_user(username, password1, None, None)`, so the account is created | high, not executed | Routes.RegisterAsWrittenAddsNoUser | Routes.RegisterThenLogin |
| app.py:135 | `re.search("^[1-9][0-9]{0,2}$", age)`; `$` also matches just before a final newline | age `"7\n"` is accepted and stored | a full match of one to three digits without a leading zero | medium, not executed | Routes.CreateAsWrittenStoresNewlineAge | Validation.AgeAcceptedIsOneTo999 |
