/** The notification routes of a signed-in user: listing the unread
    notifications newest first with their count, and marking one
    notification read. */
module NotificationRoutes {
  import opened Common
  import opened Sorting
  import opened Models
  import opened Store

  /** The notifications not yet read, in their stored order. */
  function Unread(ns: seq<Notification>): (r: seq<Notification>)
    ensures forall n :: n in r <==> n in ns && !n.isRead
  {
    var r := Filter(ns, (n: Notification) => !n.isRead);
    assert forall n :: n in ns && !n.isRead ==> n in r by {
      forall n | n in ns && !n.isRead
        ensures n in r
      {
        var i :| 0 <= i < |ns| && ns[i] == n;
      }
    }
    r
  }

  /** "May come before" for newest first: createdAt descending. */
  predicate NewerNotification(a: Notification, b: Notification)
  {
    a.createdAt >= b.createdAt
  }

  lemma NewerNotificationIsPreorder()
    ensures TotalPreorder(NewerNotification)
  {
  }

  // ---- GET /notifications ----

  datatype UnreadResponse = UnreadResponse(status: nat, notifications: seq<Notification>, count: nat)

  /** Lists the unread notifications of the requester, newest first, with
      their count; an absent user is 404. Nothing is changed. */
  function ListUnread(users: map<Id, User>, me: Requester): (r: UnreadResponse)
    ensures r.status == 404 <==> me.id !in users
    ensures r.status != 404 ==> r.status == 200
    ensures r.count == |r.notifications|
    ensures SortedBy(r.notifications, NewerNotification)
    ensures me.id in users ==> multiset(r.notifications) == multiset(Unread(users[me.id].notifications))
    ensures me.id !in users ==> r.notifications == []
  {
    if me.id !in users then UnreadResponse(404, [], 0)
    else
      NewerNotificationIsPreorder();
      var list := Sort(Unread(users[me.id].notifications), NewerNotification);
      UnreadResponse(200, list, |list|)
  }

  /** The listed notifications are exactly the requester's unread ones. */
  lemma ListUnreadExact(users: map<Id, User>, me: Requester, n: Notification)
    requires me.id in users
    ensures n in ListUnread(users, me).notifications <==> n in users[me.id].notifications && !n.isRead
  {
    var r := ListUnread(users, me);
    assert n in r.notifications <==> n in multiset(r.notifications);
    assert n in Unread(users[me.id].notifications) <==> n in multiset(Unread(users[me.id].notifications));
  }

  // ---- PUT /notifications/:id/read ----

  /** The position of the first notification with the given id, if any
      (the subdocument lookup `notifications.id(...)`). */
  function FindNotification(ns: seq<Notification>, nid: Id): (r: Option<nat>)
    ensures r.Some? ==> r.value < |ns| && ns[r.value].id == nid
    ensures r.Some? ==> forall j :: 0 <= j < r.value ==> ns[j].id != nid
    ensures r.None? ==> forall j :: 0 <= j < |ns| ==> ns[j].id != nid
  {
    if ns == [] then None
    else if ns[0].id == nid then Some(0)
    else match FindNotification(ns[1..], nid)
      case None => None
      case Some(i) => Some(i + 1)
  }

  /** The notifications with the one at position i read. */
  function MarkedRead(ns: seq<Notification>, i: nat): seq<Notification>
    requires i < |ns|
  {
    ns[i := ns[i].(isRead := true)]
  }

  /** Marking an unread notification read removes exactly that one from
      the unread ones and keeps the length of the list. */
  lemma MarkedReadEffect(ns: seq<Notification>, i: nat)
    requires i < |ns| && !ns[i].isRead
    ensures |MarkedRead(ns, i)| == |ns|
    ensures multiset(Unread(MarkedRead(ns, i))) == multiset(Unread(ns)) - multiset{ns[i]}
    ensures |Unread(MarkedRead(ns, i))| == |Unread(ns)| - 1
  {
    var p := (n: Notification) => !n.isRead;
    var after := MarkedRead(ns, i);
    assert ns == ns[..i] + [ns[i]] + ns[i + 1..];
    assert after == ns[..i] + [after[i]] + ns[i + 1..];
    FilterConcat(ns[..i] + [ns[i]], ns[i + 1..], p);
    FilterConcat(ns[..i], [ns[i]], p);
    FilterConcat(ns[..i] + [after[i]], ns[i + 1..], p);
    FilterConcat(ns[..i], [after[i]], p);
    assert Filter([after[i]], p) == [];
    assert Filter([ns[i]], p) == [ns[i]];
  }

  /** Marks one notification of the requester read. The guards run in
      order: an absent user is 404, no notification with that id 404, an
      already read notification 400. Otherwise only that notification's
      isRead becomes true. */
  method MarkRead(db: Db, me: Requester, nid: Id, now: nat) returns (status: nat)
    requires db.Valid()
    modifies db
    ensures db.Valid()
    ensures me.id !in old(db.users) ==> status == 404
    ensures me.id in old(db.users) && FindNotification(old(db.users)[me.id].notifications, nid).None? ==> status == 404
    ensures (me.id in old(db.users) && FindNotification(old(db.users)[me.id].notifications, nid).Some?
             && old(db.users)[me.id].notifications[FindNotification(old(db.users)[me.id].notifications, nid).value].isRead)
            ==> status == 400
    ensures status != 200 ==> unchanged(db)
    ensures status == 200 <==>
      && me.id in old(db.users) && FindNotification(old(db.users)[me.id].notifications, nid).Some?
      && !old(db.users)[me.id].notifications[FindNotification(old(db.users)[me.id].notifications, nid).value].isRead
    ensures status == 200 ==>
      var u := old(db.users)[me.id];
      var i := FindNotification(u.notifications, nid).value;
      && db.users == old(db.users)[me.id := u.(notifications := MarkedRead(u.notifications, i), updatedAt := now)]
      && db.questions == old(db.questions) && db.answers == old(db.answers) && db.tags == old(db.tags)
      && db.nextId == old(db.nextId)
  {
    if me.id !in db.users {
      return 404;
    }
    var user := db.users[me.id];
    var found := FindNotification(user.notifications, nid);
    if found.None? {
      return 404;
    }
    var i := found.value;
    if user.notifications[i].isRead {
      return 400;
    }
    user := user.(notifications := MarkedRead(user.notifications, i), updatedAt := now);
    assert ValidUser(user);
    KeysBelowStore(db.users, me.id, user, db.nextId, db.nextId);
    UpdateUserKeepsValid(db.users, me.id, user);
    db.users := db.users[me.id := user];
    status := 200;
  }
}
