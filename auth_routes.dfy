/** The account routes: registration (one account per e-mail address),
    login (the same answer for an unknown address and a wrong password),
    the password-free view of the signed-in user, partial profile updates,
    and marking every notification read. Password hashing is abstract: a
    stored password is compared with a candidate by a predicate the caller
    supplies. */
module AuthRoutes {
  import opened Common
  import opened Text
  import opened Models
  import opened Store
  import opened NotificationRoutes

  function OrEmpty(o: Option<string>): string
  {
    if o.Some? then o.value else ""
  }

  /** The id of the first user whose e-mail is the normal form of the given
      address (the schema lower-cases and trims the query value too). */
  function UserByEmail(users: map<Id, User>, email: string): (r: Option<Id>)
    ensures r.Some? ==> r.value in users && users[r.value].email == Normalize(email)
    ensures r.None? <==> forall k :: k in users ==> users[k].email != Normalize(email)
  {
    var target := Normalize(email);
    FindFirst(users, (u: User) => u.email == target)
  }

  /** A new valid user whose name and e-mail no stored user has keeps the
      users valid. */
  lemma AddUserKeepsValid(users: map<Id, User>, id: Id, u: User)
    requires UsersValid(users) && ValidUser(u) && id !in users
    requires forall k :: k in users ==> users[k].name != u.name && users[k].email != u.email
    ensures UsersValid(users[id := u])
  {
  }

  /** Replacing a user by a valid one with the same e-mail and a name no
      other user has keeps the users valid. */
  lemma RenameUserKeepsValid(users: map<Id, User>, id: Id, u: User)
    requires UsersValid(users) && id in users && ValidUser(u) && u.email == users[id].email
    requires forall k :: k in users && k != id ==> users[k].name != u.name
    ensures UsersValid(users[id := u])
  {
  }

  // ---- POST /auth/register ----

  /** Registers a user. An e-mail address already in use (after the
      schema's lower-casing and trimming) is 400 and creates nothing. A
      missing or blank name or e-mail, a password shorter than six
      characters, or a name already taken (the unique index) makes the
      creation fail (500). Otherwise a user with role 'user' is stored under
      a fresh id. */
  method Register(db: Db, name: Option<string>, email: Option<string>, password: Option<string>, now: nat)
    returns (status: nat, userId: Option<Id>)
    requires db.Valid()
    modifies db
    ensures db.Valid()
    ensures status == 400 <==> email.Some? && UserByEmail(old(db.users), email.value).Some?
    ensures status == 201 <==>
      && !(email.Some? && UserByEmail(old(db.users), email.value).Some?)
      && ValidUser(NewUser(OrEmpty(name), OrEmpty(email), OrEmpty(password), now))
      && forall k :: k in old(db.users) ==> old(db.users)[k].name != Trim(OrEmpty(name))
    ensures status == 400 || status == 201 || status == 500
    ensures status != 201 ==> userId == None && unchanged(db)
    ensures status == 201 ==>
      var id := old(db.nextId);
      && userId == Some(id) && id !in old(db.users)
      && db.users == old(db.users)[id := NewUser(OrEmpty(name), OrEmpty(email), OrEmpty(password), now)]
      && db.nextId == id + 1
      && db.questions == old(db.questions) && db.answers == old(db.answers) && db.tags == old(db.tags)
  {
    if email.Some? && UserByEmail(db.users, email.value).Some? {
      return 400, None;
    }
    var user := NewUser(OrEmpty(name), OrEmpty(email), OrEmpty(password), now);
    if !ValidUser(user) {
      return 500, None;
    }
    if exists k :: k in db.users && db.users[k].name == user.name {
      return 500, None;
    }
    assert email.Some?;
    var id := AddUser(db, user);
    status, userId := 201, Some(id);
  }

  /** Stores a new user under a fresh id. */
  method AddUser(db: Db, user: User) returns (id: Id)
    requires db.Valid() && ValidUser(user)
    requires forall k :: k in db.users ==> db.users[k].name != user.name && db.users[k].email != user.email
    modifies db
    ensures db.Valid()
    ensures id == old(db.nextId) && id !in old(db.users) && db.nextId == id + 1
    ensures db.users == old(db.users)[id := user]
    ensures db.questions == old(db.questions) && db.answers == old(db.answers) && db.tags == old(db.tags)
  {
    id := db.NewId();
    KeysBelowStore(db.users, id, user, id, db.nextId);
    KeysBelowGrow(db.questions, id, db.nextId);
    KeysBelowGrow(db.answers, id, db.nextId);
    KeysBelowGrow(db.tags, id, db.nextId);
    AddUserKeepsValid(db.users, id, user);
    db.users := db.users[id := user];
  }

  // ---- POST /auth/login ----

  datatype LoginResponse = LoginResponse(status: nat, user: Option<Id>)

  /** The single answer to every failed login. */
  const LoginFailed := LoginResponse(401, None)

  /** Logs a user in. An address no user has and a password that does not
      match get the same answer, LoginFailed. A missing password makes the
      comparison itself fail (500). `matches(stored, candidate)` stands for
      the hash comparison. */
  function Login(users: map<Id, User>, email: Option<string>, password: Option<string>,
                 matches: (string, string) -> bool): (r: LoginResponse)
    ensures r.status == 200 || r.status == 401 || r.status == 500
    ensures r.status == 401 ==> r == LoginFailed
    ensures email.None? || UserByEmail(users, email.value).None? ==> r == LoginFailed
    ensures r.status == 200 ==>
      && email.Some? && password.Some?
      && r.user.Some? && r.user.value in users
      && users[r.user.value].email == Normalize(email.value)
      && matches(users[r.user.value].password, password.value)
    ensures r.status == 500 <==> email.Some? && UserByEmail(users, email.value).Some? && password.None?
  {
    if email.None? then LoginFailed
    else match UserByEmail(users, email.value)
      case None => LoginFailed
      case Some(id) =>
        if password.None? then LoginResponse(500, None)
        else if matches(users[id].password, password.value) then LoginResponse(200, Some(id))
        else LoginFailed
  }

  /** With unique e-mails, a password that does not match the account of
      the address fails, and an address without an account fails, and the
      two answers are identical, so a failed login does not reveal whether
      the address is registered. */
  lemma LoginFailuresIdentical(users: map<Id, User>, unknown: string, known: string, id: Id,
                               password1: string, password2: string, matches: (string, string) -> bool)
    requires UsersValid(users)
    requires forall k :: k in users ==> users[k].email != Normalize(unknown)
    requires id in users && users[id].email == Normalize(known) && !matches(users[id].password, password2)
    ensures Login(users, Some(unknown), Some(password1), matches) == Login(users, Some(known), Some(password2), matches)
    ensures Login(users, Some(unknown), Some(password1), matches).status == 401
  {
    var found := UserByEmail(users, known);
    assert found.Some?;
    assert found.value == id;
  }

  // ---- GET /auth/me ----

  /** The view of a user that the /me route returns: every profile field,
      and no password. */
  datatype Profile = Profile(id: Id, name: string, email: string, role: Role, avatar: string,
                             bio: string, location: string, website: string, createdAt: nat)

  datatype MeResponse = MeResponse(status: nat, profile: Option<Profile>)

  /** The signed-in user's profile; an absent user makes the route fail
      (500). */
  function Me(users: map<Id, User>, me: Requester): (r: MeResponse)
    ensures r.status == 500 <==> me.id !in users
    ensures r.status != 500 ==> r.status == 200 && r.profile.Some?
    ensures r.status == 200 ==>
      var u := users[me.id];
      r.profile.value == Profile(me.id, u.name, u.email, u.role, u.avatar, u.bio, u.location, u.website, u.createdAt)
  {
    if me.id !in users then MeResponse(500, None)
    else
      var u := users[me.id];
      MeResponse(200, Some(Profile(me.id, u.name, u.email, u.role, u.avatar, u.bio, u.location, u.website, u.createdAt)))
  }

  /** The /me answer does not depend on the stored password. */
  lemma MeIgnoresPassword(users: map<Id, User>, me: Requester, password: string)
    requires me.id in users
    ensures Me(users[me.id := users[me.id].(password := password)], me) == Me(users, me)
  {
  }

  // ---- PUT /auth/profile ----

  /** The profile fields of a user after an update: a truthy name (trimmed
      by the schema) and a truthy avatar replace the stored ones; bio,
      location and website replace the stored ones whenever they are
      present, the empty string included, and are kept otherwise. */
  function ProfileUpdated(u: User, name: Option<string>, avatar: Option<string>, bio: Option<string>,
                          location: Option<string>, website: Option<string>): (v: User)
    ensures v.email == u.email && v.role == u.role && v.password == u.password
    ensures v.notifications == u.notifications && v.createdAt == u.createdAt && v.updatedAt == u.updatedAt
    ensures v.name == (if Truthy(name) then Trim(name.value) else u.name)
    ensures v.avatar == (if Truthy(avatar) then avatar.value else u.avatar)
    ensures v.bio == (if bio.Some? then bio.value else u.bio)
    ensures v.location == (if location.Some? then location.value else u.location)
    ensures v.website == (if website.Some? then website.value else u.website)
    ensures bio.None? && location.None? && website.None? && !Truthy(name) && !Truthy(avatar) ==> v == u
  {
    u.(name := if Truthy(name) then Trim(name.value) else u.name,
       avatar := if Truthy(avatar) then avatar.value else u.avatar,
       bio := if bio.Some? then bio.value else u.bio,
       location := if location.Some? then location.value else u.location,
       website := if website.Some? then website.value else u.website)
  }

  /** Sending the same update twice is the same as sending it once. */
  lemma ProfileUpdateIdempotent(u: User, name: Option<string>, avatar: Option<string>, bio: Option<string>,
                                location: Option<string>, website: Option<string>)
    ensures var v := ProfileUpdated(u, name, avatar, bio, location, website);
      ProfileUpdated(v, name, avatar, bio, location, website) == v
  {
    if Truthy(name) {
      TrimIdempotent(name.value);
    }
  }

  /** Updates the signed-in user's profile. An absent user, an updated
      profile that breaks the schema (a name of white space only, a bio
      over 500 characters) or a name another user has makes the save fail
      (500) with nothing changed. Otherwise only that user changes, and
      never in e-mail, role, password or notifications. */
  method UpdateProfile(db: Db, me: Requester, name: Option<string>, avatar: Option<string>, bio: Option<string>,
                       location: Option<string>, website: Option<string>, now: nat) returns (status: nat)
    requires db.Valid()
    modifies db
    ensures db.Valid()
    ensures status == 200 || status == 500
    ensures status == 200 <==>
      && me.id in old(db.users)
      && var v := ProfileUpdated(old(db.users)[me.id], name, avatar, bio, location, website);
      && ValidUser(v)
      && forall k :: k in old(db.users) && k != me.id ==> old(db.users)[k].name != v.name
    ensures status != 200 ==> unchanged(db)
    ensures status == 200 ==>
      var v := ProfileUpdated(old(db.users)[me.id], name, avatar, bio, location, website);
      && db.users == old(db.users)[me.id := v.(updatedAt := now)]
      && db.questions == old(db.questions) && db.answers == old(db.answers) && db.tags == old(db.tags)
      && db.nextId == old(db.nextId)
  {
    if me.id !in db.users {
      return 500;
    }
    var user := ProfileUpdated(db.users[me.id], name, avatar, bio, location, website);
    if !ValidUser(user) {
      return 500;
    }
    if exists k :: k in db.users && k != me.id && db.users[k].name == user.name {
      return 500;
    }
    user := user.(updatedAt := now);
    KeysBelowStore(db.users, me.id, user, db.nextId, db.nextId);
    RenameUserKeepsValid(db.users, me.id, user);
    db.users := db.users[me.id := user];
    status := 200;
  }

  // ---- PATCH /auth/notifications/mark-read ----

  /** Every notification read; ids, messages, times and order are kept. */
  function AllRead(ns: seq<Notification>): (r: seq<Notification>)
    ensures |r| == |ns|
    ensures forall i :: 0 <= i < |ns| ==>
      && r[i].isRead && r[i].id == ns[i].id && r[i].message == ns[i].message && r[i].createdAt == ns[i].createdAt
  {
    seq(|ns|, i requires 0 <= i < |ns| => ns[i].(isRead := true))
  }

  /** After marking all read nothing is unread, and marking again changes
      nothing. */
  lemma AllReadEffect(ns: seq<Notification>)
    ensures Unread(AllRead(ns)) == []
    ensures AllRead(AllRead(ns)) == AllRead(ns)
  {
    var r := AllRead(ns);
    FilterNone(r, (n: Notification) => !n.isRead);
    assert forall i :: 0 <= i < |r| ==> r[i].(isRead := true) == r[i];
  }

  /** `notifications.forEach(n => n.isRead = true)`. */
  method ReadAll(ns: seq<Notification>) returns (out: seq<Notification>)
    ensures out == AllRead(ns)
  {
    out := ns;
    var i := 0;
    while i < |out|
      invariant 0 <= i <= |out| == |ns|
      invariant forall j :: 0 <= j < i ==> out[j] == ns[j].(isRead := true)
      invariant forall j :: i <= j < |out| ==> out[j] == ns[j]
    {
      out := out[i := out[i].(isRead := true)];
      i := i + 1;
    }
  }

  /** Marks every notification of the signed-in user read; an absent user
      makes the route fail (500). */
  method MarkAllRead(db: Db, me: Requester, now: nat) returns (status: nat)
    requires db.Valid()
    modifies db
    ensures db.Valid()
    ensures status == 500 <==> me.id !in old(db.users)
    ensures status != 500 ==> status == 200
    ensures status == 500 ==> unchanged(db)
    ensures status == 200 ==>
      var u := old(db.users)[me.id];
      && db.users == old(db.users)[me.id := u.(notifications := AllRead(u.notifications), updatedAt := now)]
      && db.questions == old(db.questions) && db.answers == old(db.answers) && db.tags == old(db.tags)
      && db.nextId == old(db.nextId)
  {
    if me.id !in db.users {
      return 500;
    }
    var user := db.users[me.id];
    var read := ReadAll(user.notifications);
    user := user.(notifications := read, updatedAt := now);
    assert ValidUser(user);
    KeysBelowStore(db.users, me.id, user, db.nextId, db.nextId);
    UpdateUserKeepsValid(db.users, me.id, user);
    db.users := db.users[me.id := user];
    status := 200;
  }
}
