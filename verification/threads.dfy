/** The conversation engine (threads.py): per-ad, per-pair threads between an
    ad's owner and another user, the messages posted in them, and their read
    flags. */
module Threads {
  import opened Wrappers
  import opened Db
  import Rows

  /** A row of `get_threads_by_message`: the thread with both participants' names. */
  datatype ThreadOverview = ThreadOverview(id: Id, user1: Id, user1Name: string,
                                           user2: Id, user2Name: string, adId: Id)

  /** A row of `get_user_threads`: the thread, the other participant's name
      and the title of the ad it is about. */
  datatype UserThread = UserThread(id: Id, adId: Id, partner: string, adTitle: string)

  /** A row of `get_messages`: a thread message with its sender's name. */
  datatype Line = Line(id: Id, threadId: Id, senderId: Id, senderName: string, content: string, createdAt: int)

  /** Both participants of `t` have a `users` row, so the two joins on
      `users` keep the thread. */
  predicate ParticipantsJoin(db: Store, t: Thread) {
    HasUser(db, t.user1) && HasUser(db, t.user2)
  }

  function OverviewOf(db: Store, t: Thread): ThreadOverview {
    ThreadOverview(t.id, t.user1, NameOf(db, t.user1), t.user2, NameOf(db, t.user2), t.adId)
  }

  /** threads.py `get_threads_by_message`: exactly the threads about ad
      `messageId` (whose participants join), newest first. */
  function GetThreadsByMessage(db: Store, messageId: Id): (r: seq<ThreadOverview>)
    ensures forall t :: t in db.threads && t.adId == messageId && ParticipantsJoin(db, t) ==> OverviewOf(db, t) in r
    ensures forall v :: v in r ==>
      exists t :: t in db.threads && t.adId == messageId && ParticipantsJoin(db, t) && v == OverviewOf(db, t)
    ensures Valid(db) ==> forall i, j :: 0 <= i < j < |r| ==> r[i].id > r[j].id
  {
    Rows.NewestFirst(db.threads,
                     (t: Thread) => t.adId == messageId && ParticipantsJoin(db, t),
                     (t: Thread) => OverviewOf(db, t),
                     (t: Thread) => t.id, (v: ThreadOverview) => v.id)
  }

  /** threads.py `get_thread`: the thread with this id, or None. */
  function GetThread(db: Store, threadId: Id): (r: Option<Thread>)
    ensures r.Some? ==> r.value in db.threads && r.value.id == threadId
    ensures r.None? <==> forall t :: t in db.threads ==> t.id != threadId
  {
    Rows.First(db.threads, (t: Thread) => t.id == threadId)
  }

  /** `userId` is one of the two participants of `t`. */
  predicate Involves(t: Thread, userId: Id) {
    t.user1 == userId || t.user2 == userId
  }

  /** The other participant's name is user2's when `userId` is user1, and
      user1's otherwise. */
  function UserThreadOf(db: Store, userId: Id, t: Thread): UserThread {
    UserThread(t.id, t.adId, if t.user1 == userId then NameOf(db, t.user2) else NameOf(db, t.user1), TitleOf(db, t.adId))
  }

  /** threads.py `get_user_threads`: exactly the threads `userId` takes part
      in (whose participants and ad join), newest first, each naming the
      other participant and the ad's title. */
  function GetUserThreads(db: Store, userId: Id): (r: seq<UserThread>)
    ensures forall t :: t in db.threads && Involves(t, userId) && ParticipantsJoin(db, t) && HasAd(db, t.adId) ==>
      UserThreadOf(db, userId, t) in r
    ensures forall v :: v in r ==>
      exists t :: t in db.threads && Involves(t, userId) && ParticipantsJoin(db, t) && HasAd(db, t.adId)
        && v == UserThreadOf(db, userId, t)
    ensures Valid(db) ==> forall i, j :: 0 <= i < j < |r| ==> r[i].id > r[j].id
  {
    Rows.NewestFirst(db.threads,
                     (t: Thread) => Involves(t, userId) && ParticipantsJoin(db, t) && HasAd(db, t.adId),
                     (t: Thread) => UserThreadOf(db, userId, t),
                     (t: Thread) => t.id, (v: UserThread) => v.id)
  }

  function LineOf(db: Store, p: Post): Line {
    Line(p.id, p.threadId, p.senderId, NameOf(db, p.senderId), p.content, p.createdAt)
  }

  predicate InThread(db: Store, threadId: Id, p: Post) {
    p.threadId == threadId && HasUser(db, p.senderId)
  }

  /** The messages of a thread joined with their senders' names, in storage order. */
  function ThreadLines(db: Store, threadId: Id): (r: seq<Line>)
    ensures forall p :: p in db.posts && InThread(db, threadId, p) ==> LineOf(db, p) in r
    ensures forall v :: v in r ==> exists p :: p in db.posts && InThread(db, threadId, p) && v == LineOf(db, p)
  {
    Rows.Select(db.posts, (p: Post) => InThread(db, threadId, p), (p: Post) => LineOf(db, p))
  }

  /** No line is later than a line after it. */
  predicate Chronological(lines: seq<Line>) {
    forall i, j :: 0 <= i < j < |lines| ==> lines[i].createdAt <= lines[j].createdAt
  }

  /** A time-ordered list stays time-ordered without its head, and its head
      is not later than anything after it. */
  lemma ChronologicalTail(lines: seq<Line>)
    requires Chronological(lines) && |lines| > 0
    ensures Chronological(lines[1..])
    ensures forall v :: v in lines[1..] ==> lines[0].createdAt <= v.createdAt
  {
    forall i, j | 0 <= i < j < |lines[1..]|
      ensures lines[1..][i].createdAt <= lines[1..][j].createdAt
    {
      assert lines[1..][i] == lines[i + 1] && lines[1..][j] == lines[j + 1];
    }
    forall v | v in lines[1..] ensures lines[0].createdAt <= v.createdAt {
      var k :| 0 <= k < |lines[1..]| && lines[1..][k] == v;
      assert lines[k + 1] == v;
    }
  }

  /** Puts `x` in front of the first line that is not earlier than it. */
  function InsertByTime(x: Line, lines: seq<Line>): (r: seq<Line>)
    ensures multiset(r) == multiset(lines) + multiset{x}
  {
    if |lines| == 0 || x.createdAt <= lines[0].createdAt then [x] + lines
    else
      assert lines == [lines[0]] + lines[1..];
      [lines[0]] + InsertByTime(x, lines[1..])
  }

  /** A line not later than any line of a time-ordered list can go in front. */
  lemma ChronologicalCons(x: Line, lines: seq<Line>)
    requires Chronological(lines)
    requires forall k :: 0 <= k < |lines| ==> x.createdAt <= lines[k].createdAt
    ensures Chronological([x] + lines)
  {
    var r := [x] + lines;
    forall i, j | 0 <= i < j < |r| ensures r[i].createdAt <= r[j].createdAt {
      assert r[j] == lines[j - 1];
      if i > 0 {
        assert r[i] == lines[i - 1];
      }
    }
  }

  /** Inserting into a time-ordered list keeps it time-ordered. */
  lemma {:induction false} InsertKeepsChronological(x: Line, lines: seq<Line>)
    requires Chronological(lines)
    ensures Chronological(InsertByTime(x, lines))
  {
    if |lines| > 0 {
      if x.createdAt <= lines[0].createdAt {
        ChronologicalCons(x, lines);
      } else {
        ChronologicalTail(lines);
        InsertKeepsChronological(x, lines[1..]);
        var rest := InsertByTime(x, lines[1..]);
        forall k | 0 <= k < |rest| ensures lines[0].createdAt <= rest[k].createdAt {
          assert rest[k] in multiset(rest);
        }
        ChronologicalCons(lines[0], rest);
      }
    }
  }

  /** `ORDER BY created_at ASC`, stable: lines with equal timestamps keep
      their storage order. */
  function SortByTime(lines: seq<Line>): (r: seq<Line>)
    ensures multiset(r) == multiset(lines)
    ensures Chronological(r)
  {
    if |lines| == 0 then []
    else
      assert lines == [lines[0]] + lines[1..];
      InsertKeepsChronological(lines[0], SortByTime(lines[1..]));
      InsertByTime(lines[0], SortByTime(lines[1..]))
  }

  /** threads.py `get_messages`: the thread's messages (whose sender joins),
      in ascending creation time. The second argument is accepted and
      ignored, as `threads.py` does: the listing is the same for every caller. */
  function GetMessages(db: Store, threadId: Id, userId: Id): (r: seq<Line>)
    ensures multiset(r) == multiset(ThreadLines(db, threadId))
    ensures forall p :: p in db.posts && InThread(db, threadId, p) ==> LineOf(db, p) in r
    ensures forall v :: v in r ==> exists p :: p in db.posts && InThread(db, threadId, p) && v == LineOf(db, p)
    ensures Chronological(r)
  {
    var lines := ThreadLines(db, threadId);
    var r := SortByTime(lines);
    assert forall v :: v in r <==> v in multiset(r);
    assert forall v :: v in lines <==> v in multiset(lines);
    r
  }

  /** Sorting lines that are already in time order changes nothing. */
  lemma {:induction false} SortChronological(lines: seq<Line>)
    requires Chronological(lines)
    ensures SortByTime(lines) == lines
  {
    if |lines| > 0 {
      assert Chronological(lines[1..]) by {
        forall i, j | 0 <= i < j < |lines[1..]|
          ensures lines[1..][i].createdAt <= lines[1..][j].createdAt
        {
          assert lines[1..][i] == lines[i + 1] && lines[1..][j] == lines[j + 1];
        }
      }
      SortChronological(lines[1..]);
    }
  }

  /** The store's clock never went backwards: thread messages were stored in
      nondecreasing creation time. */
  ghost predicate ClockMonotone(db: Store) {
    forall i, j :: 0 <= i < j < |db.posts| ==> db.posts[i].createdAt <= db.posts[j].createdAt
  }

  /** With a clock that never went backwards, messages with equal
      timestamps come out in the order they were stored: the listing is the
      thread's messages in storage order. */
  lemma GetMessagesInStorageOrder(db: Store, threadId: Id, userId: Id)
    requires ClockMonotone(db)
    ensures GetMessages(db, threadId, userId) == ThreadLines(db, threadId)
  {
    var before := (p: Post, q: Post) => p.createdAt <= q.createdAt;
    var vbefore := (v: Line, w: Line) => v.createdAt <= w.createdAt;
    assert Rows.Sorted(db.posts, before);
    Rows.SelectKeepsOrder(db.posts, (p: Post) => InThread(db, threadId, p), (p: Post) => LineOf(db, p), before, vbefore);
    var lines := ThreadLines(db, threadId);
    assert Rows.Sorted(lines, vbefore);
    assert Chronological(lines);
    SortChronological(lines);
  }

  /** threads.py `mark_thread_as_read`: sets the read flag on every message
      of thread `threadId` that `userId` did not send. */
  function MarkThreadAsRead(db: Store, threadId: Id, userId: Id): (r: Store)
    ensures r == db.(posts := r.posts)
    ensures |r.posts| == |db.posts|
    ensures forall i :: 0 <= i < |db.posts| ==> r.posts[i] == db.posts[i].(read := r.posts[i].read)
    ensures forall i :: 0 <= i < |db.posts| ==>
      (r.posts[i].read <==> db.posts[i].read || (db.posts[i].threadId == threadId && db.posts[i].senderId != userId))
    ensures forall i :: 0 <= i < |db.posts| && (db.posts[i].senderId == userId || db.posts[i].threadId != threadId) ==>
      r.posts[i] == db.posts[i]
  {
    var posts := seq(|db.posts|, i requires 0 <= i < |db.posts| =>
      var p := db.posts[i];
      if p.threadId == threadId && p.senderId != userId then p.(read := true) else p);
    db.(posts := posts)
  }

  /** Marking a thread read a second time changes nothing. */
  lemma MarkThreadAsReadIdempotent(db: Store, threadId: Id, userId: Id)
    ensures MarkThreadAsRead(MarkThreadAsRead(db, threadId, userId), threadId, userId) == MarkThreadAsRead(db, threadId, userId)
  {
    var once := MarkThreadAsRead(db, threadId, userId);
    var twice := MarkThreadAsRead(once, threadId, userId);
    assert twice.posts == once.posts;
  }

  /** Marking read keeps every id, so the store stays valid. */
  lemma MarkThreadAsReadValid(db: Store, threadId: Id, userId: Id)
    requires Valid(db)
    ensures Valid(MarkThreadAsRead(db, threadId, userId))
  {
    var r := MarkThreadAsRead(db, threadId, userId);
    forall p | p in r.posts ensures p.id < r.nextPost {
      var k :| 0 <= k < |r.posts| && r.posts[k] == p;
      assert db.posts[k] in db.posts;
    }
  }

  /** threads.py `send_message`: appends one unread message under a created id,
      stamped with the clock reading `now`. Nothing checks that the thread
      exists or that the sender takes part in it. */
  function SendMessage(db: Store, threadId: Id, senderId: Id, content: string, now: int): (r: Store)
    ensures r == db.(posts := r.posts, nextPost := r.nextPost)
    ensures |r.posts| == |db.posts| + 1 && r.posts[..|db.posts|] == db.posts
    ensures r.posts[|db.posts|] == Post(db.nextPost, threadId, senderId, content, now, false)
    ensures Valid(db) ==> Valid(r)
  {
    db.(posts := db.posts + [Post(db.nextPost, threadId, senderId, content, now, false)], nextPost := db.nextPost + 1)
  }

  /** Inserting a line that is not earlier than `last` commutes with
      appending `last`. */
  lemma {:induction false} InsertBeforeLast(y: Line, lines: seq<Line>, last: Line)
    requires y.createdAt <= last.createdAt
    ensures InsertByTime(y, lines + [last]) == InsertByTime(y, lines) + [last]
  {
    if |lines| > 0 {
      assert (lines + [last])[0] == lines[0];
      assert (lines + [last])[1..] == lines[1..] + [last];
      if y.createdAt > lines[0].createdAt {
        InsertBeforeLast(y, lines[1..], last);
      }
    }
  }

  /** Sorting lines followed by one that is not earlier than any of them
      sorts the lines and keeps that one last. */
  lemma {:induction false} SortAppendLatest(lines: seq<Line>, last: Line)
    requires forall v :: v in lines ==> v.createdAt <= last.createdAt
    ensures SortByTime(lines + [last]) == SortByTime(lines) + [last]
  {
    if |lines| > 0 {
      assert (lines + [last])[0] == lines[0];
      assert (lines + [last])[1..] == lines[1..] + [last];
      assert forall v :: v in lines[1..] ==> v in lines;
      SortAppendLatest(lines[1..], last);
      InsertBeforeLast(lines[0], SortByTime(lines[1..]), last);
    }
  }

  /** A message sent with a clock reading no earlier than the thread's other
      messages shows up last in the thread's listing, under the sender's
      name, unread by nobody's choice: every caller sees the same list. */
  lemma SendThenListed(db: Store, threadId: Id, senderId: Id, content: string, now: int, viewer: Id)
    requires HasUser(db, senderId)
    requires forall p :: p in db.posts && p.threadId == threadId ==> p.createdAt <= now
    ensures GetMessages(SendMessage(db, threadId, senderId, content, now), threadId, viewer)
         == GetMessages(db, threadId, viewer) + [Line(db.nextPost, threadId, senderId, NameOf(db, senderId), content, now)]
  {
    var r := SendMessage(db, threadId, senderId, content, now);
    var p := Post(db.nextPost, threadId, senderId, content, now, false);
    assert r.posts == db.posts + [p];
    var keep := (q: Post) => InThread(db, threadId, q);
    var view := (q: Post) => LineOf(db, q);
    var keep' := (q: Post) => InThread(r, threadId, q);
    var view' := (q: Post) => LineOf(r, q);
    Rows.SelectConcat(db.posts, [p], keep', view');
    Rows.SelectAgrees(db.posts, keep', view', keep, view);
    assert ThreadLines(r, threadId) == ThreadLines(db, threadId) + [LineOf(db, p)];
    SortAppendLatest(ThreadLines(db, threadId), LineOf(db, p));
  }

  /** Thread `t` is about ad `adId` and between `u` and `v`, in either stored order. */
  predicate Connects(t: Thread, adId: Id, u: Id, v: Id) {
    t.adId == adId && ((t.user1 == u && t.user2 == v) || (t.user1 == v && t.user2 == u))
  }

  /** The lookup half of `get_or_create_thread`: the first thread about
      `adId` between `u` and `v` in either order. */
  function FindThread(threads: seq<Thread>, adId: Id, u: Id, v: Id): (r: Option<Thread>)
    ensures r.Some? ==> r.value in threads && Connects(r.value, adId, u, v)
    ensures r.None? <==> forall t :: t in threads ==> !Connects(t, adId, u, v)
  {
    Rows.First(threads, (t: Thread) => Connects(t, adId, u, v))
  }

  /** The lookup finds the same thread whichever participant asks. */
  lemma FindThreadSymmetric(threads: seq<Thread>, adId: Id, u: Id, v: Id)
    ensures FindThread(threads, adId, u, v) == FindThread(threads, adId, v, u)
  {
    Rows.FirstAgrees(threads, (t: Thread) => Connects(t, adId, u, v), (t: Thread) => Connects(t, adId, v, u));
  }

  /** threads.py `get_or_create_thread`: the id of the thread about the ad
      between the two users in either stored order, inserting nothing; or,
      when there is none, the created id of a newly inserted thread with
      user1 = `userId`, user2 = `ownerId`. */
  function GetOrCreateThread(db: Store, messageId: Id, userId: Id, ownerId: Id): (r: (Store, Id))
    ensures (exists t :: t in db.threads && Connects(t, messageId, userId, ownerId)) ==>
      r.0 == db && exists t :: t in db.threads && Connects(t, messageId, userId, ownerId) && t.id == r.1
    ensures (forall t :: t in db.threads ==> !Connects(t, messageId, userId, ownerId)) ==>
      r.1 == db.nextThread
      && r.0 == db.(threads := db.threads + [Thread(r.1, userId, ownerId, messageId)], nextThread := r.1 + 1)
    ensures Valid(db) ==> Valid(r.0)
    ensures Valid(db) && r.0 != db ==> forall t :: t in db.threads ==> t.id != r.1
  {
    match FindThread(db.threads, messageId, userId, ownerId)
    case Some(t) => (db, t.id)
    case None =>
      var id := db.nextThread;
      (db.(threads := db.threads + [Thread(id, userId, ownerId, messageId)], nextThread := id + 1), id)
  }

  /** At most one thread per ad and unordered pair of users. */
  ghost predicate OneThreadPerPair(threads: seq<Thread>) {
    forall i, j :: 0 <= i < j < |threads| ==>
      !Connects(threads[j], threads[i].adId, threads[i].user1, threads[i].user2)
  }

  /** `get_or_create_thread` is the only way threads are made, and it never
      makes a second thread for the same ad and pair. */
  lemma GetOrCreateKeepsOneThreadPerPair(db: Store, messageId: Id, userId: Id, ownerId: Id)
    requires OneThreadPerPair(db.threads)
    ensures OneThreadPerPair(GetOrCreateThread(db, messageId, userId, ownerId).0.threads)
  {
    var r := GetOrCreateThread(db, messageId, userId, ownerId);
    if r.0 != db {
      var ts := r.0.threads;
      var n := |db.threads|;
      forall i, j | 0 <= i < j < |ts|
        ensures !Connects(ts[j], ts[i].adId, ts[i].user1, ts[i].user2)
      {
        if j == n {
          assert ts[i] == db.threads[i];
          assert !Connects(db.threads[i], messageId, userId, ownerId);
        } else {
          assert ts[i] == db.threads[i] && ts[j] == db.threads[j];
        }
      }
    }
  }

  /** Deleting threads keeps at most one thread per ad and pair. */
  lemma WhereKeepsOneThreadPerPair(threads: seq<Thread>, keep: Thread -> bool)
    requires OneThreadPerPair(threads)
    ensures OneThreadPerPair(Rows.Where(threads, keep))
  {
    var before := (s: Thread, t: Thread) => !Connects(t, s.adId, s.user1, s.user2);
    assert Rows.Sorted(threads, before);
    Rows.WhereKeepsSorted(threads, keep, before);
    var ts := Rows.Where(threads, keep);
    assert Rows.Sorted(ts, before);
    forall i, j | 0 <= i < j < |ts|
      ensures !Connects(ts[j], ts[i].adId, ts[i].user1, ts[i].user2)
    {
      assert before(ts[i], ts[j]);
    }
  }

  /** Under the invariant, a thread between two users about an ad is the
      only one. */
  lemma OneThreadPerPairUnique(threads: seq<Thread>, adId: Id, u: Id, v: Id, t1: Thread, t2: Thread)
    requires OneThreadPerPair(threads)
    requires t1 in threads && Connects(t1, adId, u, v)
    requires t2 in threads && Connects(t2, adId, u, v)
    ensures t1 == t2
  {
    var i :| 0 <= i < |threads| && threads[i] == t1;
    var j :| 0 <= j < |threads| && threads[j] == t2;
    if i < j {
      assert Connects(threads[j], threads[i].adId, threads[i].user1, threads[i].user2);
    } else if j < i {
      assert Connects(threads[i], threads[j].adId, threads[j].user1, threads[j].user2);
    }
  }

  /** One call about ad `adId` between `u` and `v`, naming the pair the
      other way round when `swap` is set. */
  function CallOnce(db: Store, adId: Id, u: Id, v: Id, swap: bool): (Store, Id) {
    if swap then GetOrCreateThread(db, adId, v, u) else GetOrCreateThread(db, adId, u, v)
  }

  /** A run of `get_or_create_thread` calls about one ad and one pair of
      users; `swapped[k]` says whether call k names the two users the other
      way round. Returns the final store and the ids the calls returned. */
  function Calls(db: Store, adId: Id, u: Id, v: Id, swapped: seq<bool>): (Store, seq<Id>)
    decreases |swapped|
  {
    if |swapped| == 0 then (db, [])
    else
      var first := CallOnce(db, adId, u, v, swapped[0]);
      var rest := Calls(first.0, adId, u, v, swapped[1..]);
      (rest.0, [first.1] + rest.1)
  }

  /** Once a thread between the pair exists, every further call returns its
      id and changes nothing. */
  lemma {:induction false} CallsAfterFound(db: Store, adId: Id, u: Id, v: Id, t: Thread, swapped: seq<bool>)
    requires FindThread(db.threads, adId, u, v) == Some(t)
    ensures Calls(db, adId, u, v, swapped).0 == db
    ensures forall k :: 0 <= k < |Calls(db, adId, u, v, swapped).1| ==> Calls(db, adId, u, v, swapped).1[k] == t.id
    ensures |Calls(db, adId, u, v, swapped).1| == |swapped|
  {
    if |swapped| > 0 {
      FindThreadSymmetric(db.threads, adId, u, v);
      CallsAfterFound(db, adId, u, v, t, swapped[1..]);
    }
  }

  /** What a run of `n` calls about one ad and one pair promises: the calls
      all return one id, the threads already stored are kept as they were,
      and at most one thread is added, none when the pair already had one. */
  ghost predicate SharesOneThread(db: Store, adId: Id, u: Id, v: Id, n: nat, run: (Store, seq<Id>)) {
    && |run.1| == n
    && (forall k :: 0 <= k < |run.1| ==> run.1[k] == run.1[0])
    && |db.threads| <= |run.0.threads| <= |db.threads| + 1
    && run.0.threads[..|db.threads|] == db.threads
    && ((exists t :: t in db.threads && Connects(t, adId, u, v)) ==> run.0 == db)
  }

  /** The first call of a run: it finds or creates a thread that the
      lookup finds from then on, whichever way round it named the pair. */
  lemma FirstCallSettles(db: Store, adId: Id, u: Id, v: Id, swap: bool)
    ensures exists t :: FindThread(CallOnce(db, adId, u, v, swap).0.threads, adId, u, v) == Some(t)
                        && t.id == CallOnce(db, adId, u, v, swap).1
    ensures |db.threads| <= |CallOnce(db, adId, u, v, swap).0.threads| <= |db.threads| + 1
    ensures CallOnce(db, adId, u, v, swap).0.threads[..|db.threads|] == db.threads
    ensures (exists t :: t in db.threads && Connects(t, adId, u, v)) ==> CallOnce(db, adId, u, v, swap).0 == db
  {
    FindThreadSymmetric(db.threads, adId, u, v);
    var first := CallOnce(db, adId, u, v, swap);
    match FindThread(db.threads, adId, u, v)
    case Some(t) =>
      assert first == (db, t.id);
    case None =>
      var created := first.0.threads[|db.threads|];
      assert first.0.threads == db.threads + [created];
      assert Connects(created, adId, u, v);
      Rows.FirstOfAppend(db.threads, created, (t: Thread) => Connects(t, adId, u, v));
      assert FindThread(first.0.threads, adId, u, v) == Some(created);
  }

  /** Idempotence: however many calls are made about one ad and one pair, in
      whichever order each names the two users, they all return one id, and
      at most one thread is added. */
  lemma RepeatedCallsShareOneThread(db: Store, adId: Id, u: Id, v: Id, swapped: seq<bool>)
    ensures SharesOneThread(db, adId, u, v, |swapped|, Calls(db, adId, u, v, swapped))
  {
    if |swapped| > 0 {
      var first := CallOnce(db, adId, u, v, swapped[0]);
      var rest := Calls(first.0, adId, u, v, swapped[1..]);
      FirstCallSettles(db, adId, u, v, swapped[0]);
      var t :| FindThread(first.0.threads, adId, u, v) == Some(t) && t.id == first.1;
      CallsAfterFound(first.0, adId, u, v, t, swapped[1..]);
      var ids := [first.1] + rest.1;
      assert forall k :: 0 <= k < |ids| ==> ids[k] == t.id;
    }
  }
}
