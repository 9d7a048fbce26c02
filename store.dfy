/** The document store that the route handlers read and update in place:
    one collection per document kind, keyed by id, and the source of fresh
    ids. `Valid` holds the schema rules of every stored document, the unique
    indexes, and the cross-document facts that the handlers maintain. */
module Store {
  import opened Common
  import opened Text
  import opened Models

  /** The authenticated user that the auth middleware attaches to a request
      (`req.user`). */
  datatype Requester = Requester(id: Id, name: string, role: Role)

  class Db {
    var users: map<Id, User>
    var questions: map<Id, Question>
    var answers: map<Id, Answer>
    var tags: map<Id, Tag>
    /** Every id handed out so far is below nextId. */
    var nextId: nat

    constructor ()
      ensures Valid()
      ensures users == map[] && questions == map[] && answers == map[] && tags == map[]
    {
      users, questions, answers, tags := map[], map[], map[], map[];
      nextId := 0;
    }

    /** Every stored document satisfies its schema, the unique indexes
        hold, and every id in use is below nextId, so an id taken from
        nextId is new. */
    ghost predicate Valid()
      reads this
    {
      && KeysBelow(users, nextId) && KeysBelow(questions, nextId)
      && KeysBelow(answers, nextId) && KeysBelow(tags, nextId)
      && UsersValid(users) && QuestionsValid(questions)
      && AnswersValid(answers) && TagsValid(tags)
    }

    /** A fresh id for a new document or notification. */
    method NewId() returns (id: Id)
      modifies this`nextId
      ensures id == old(nextId) && nextId == id + 1
    {
      id := nextId;
      nextId := nextId + 1;
    }
  }

  predicate KeysBelow<V>(m: map<Id, V>, n: nat)
  {
    forall k :: k in m ==> k < n
  }

  /** Every user satisfies the schema; names and e-mails are unique. */
  predicate UsersValid(users: map<Id, User>)
  {
    && (forall u :: u in users ==> ValidUser(users[u]))
    && (forall u1, u2 :: u1 in users && u2 in users && u1 != u2 ==> users[u1].name != users[u2].name)
    && (forall u1, u2 :: u1 in users && u2 in users && u1 != u2 ==> users[u1].email != users[u2].email)
  }

  predicate QuestionsValid(questions: map<Id, Question>)
  {
    forall q :: q in questions ==> ValidQuestion(questions[q])
  }

  predicate AnswersValid(answers: map<Id, Answer>)
  {
    forall a :: a in answers ==> ValidAnswer(answers[a])
  }

  /** Every tag satisfies the schema; tag names are unique. */
  predicate TagsValid(tags: map<Id, Tag>)
  {
    && (forall t :: t in tags ==> ValidTag(tags[t]))
    && (forall t1, t2 :: t1 in tags && t2 in tags && t1 != t2 ==> tags[t1].name != tags[t2].name)
  }

  /** Storing a document under an id below the bound, or raising the
      bound, keeps every key below it. */
  lemma KeysBelowStore<V>(m: map<Id, V>, k: Id, v: V, n: nat, n': nat)
    requires KeysBelow(m, n) && k < n' && n <= n'
    ensures KeysBelow(m[k := v], n')
  {
  }

  lemma KeysBelowGrow<V>(m: map<Id, V>, n: nat, n': nat)
    requires KeysBelow(m, n) && n <= n'
    ensures KeysBelow(m, n')
  {
  }

  lemma StoreAnswerKeepsValid(answers: map<Id, Answer>, id: Id, a: Answer)
    requires AnswersValid(answers) && ValidAnswer(a)
    ensures AnswersValid(answers[id := a])
  {
  }

  lemma StoreQuestionKeepsValid(questions: map<Id, Question>, id: Id, q: Question)
    requires QuestionsValid(questions) && ValidQuestion(q)
    ensures QuestionsValid(questions[id := q])
  {
  }

  /** Replacing a user by a valid one with the same name and e-mail keeps
      the users valid. */
  lemma UpdateUserKeepsValid(users: map<Id, User>, id: Id, u: User)
    requires UsersValid(users) && id in users && ValidUser(u)
    requires u.name == users[id].name && u.email == users[id].email
    ensures UsersValid(users[id := u])
  {
  }

  /** A tag name identifies the tag. */
  lemma TagNameUnique(tags: map<Id, Tag>, a: Id, b: Id)
    requires TagsValid(tags) && a in tags && b in tags && tags[a].name == tags[b].name
    ensures a == b
  {
  }

  /** A new valid tag whose name no stored tag has keeps the tags valid. */
  lemma AddTagKeepsValid(tags: map<Id, Tag>, id: Id, t: Tag)
    requires TagsValid(tags) && ValidTag(t) && id !in tags
    requires forall k :: k in tags ==> tags[k].name != t.name
    ensures TagsValid(tags[id := t])
  {
  }

  /** Replacing users by valid users with the same names and e-mails keeps
      the users valid. */
  lemma SameKeysKeepValid(users: map<Id, User>, users': map<Id, User>)
    requires UsersValid(users)
    requires users'.Keys == users.Keys
    requires forall u :: u in users ==>
      && users'[u].name == users[u].name && users'[u].email == users[u].email
      && (ValidUser(users[u]) ==> ValidUser(users'[u]))
    ensures UsersValid(users')
  {
  }

  /** One more notification for a stored user keeps the users valid: the
      name and e-mail do not change and the message is not empty. */
  lemma NotifyKeepsUsersValid(users: map<Id, User>, id: Id, nid: Id, message: string, now: nat)
    requires UsersValid(users) && id in users && message != []
    ensures UsersValid(users[id := Notify(users[id], nid, message, now)])
  {
    var u := Notify(users[id], nid, message, now);
    assert ValidUser(u);
    UpdateUserKeepsValid(users, id, u);
  }

  /** Appends an unread notification, numbered with a fresh id, to a
      stored user's list (`user.notifications.push(...)` then `save()`). */
  method NotifyUser(db: Db, user: Id, message: string, now: nat)
    requires db.Valid() && user in db.users && message != []
    modifies db
    ensures db.Valid()
    ensures db.users == old(db.users)[user := Notify(old(db.users)[user], old(db.nextId), message, now)]
    ensures db.nextId == old(db.nextId) + 1
    ensures db.questions == old(db.questions) && db.answers == old(db.answers) && db.tags == old(db.tags)
  {
    var nid := db.NewId();
    var u := Notify(db.users[user], nid, message, now);
    KeysBelowStore(db.users, user, u, nid, db.nextId);
    NotifyKeepsUsersValid(db.users, user, nid, message, now);
    db.users := db.users[user := u];
  }

  /** The id of the first document of m (in natural order) that satisfies p:
      `findOne` with a filter. */
  function FindFirst<V>(m: map<Id, V>, p: V -> bool): (r: Option<Id>)
    ensures r.Some? ==> r.value in m && p(m[r.value])
    ensures r.Some? ==> forall k :: k in m && k < r.value ==> !p(m[k])
    ensures r.None? ==> forall k :: k in m ==> !p(m[k])
    decreases |m|
  {
    if |m| == 0 then None
    else
      var k := Min(m.Keys);
      if p(m[k]) then Some(k)
      else
        assert forall j :: j in m && j != k ==> j in m - {k};
        FindFirst(m - {k}, p)
  }

  /** With a unique key, the document found by that key is the only one. */
  lemma FindFirstUnique<V>(m: map<Id, V>, p: V -> bool)
    requires forall k1, k2 :: k1 in m && k2 in m && k1 != k2 && p(m[k1]) ==> !p(m[k2])
    ensures FindFirst(m, p).Some? ==> forall k :: k in m && p(m[k]) ==> k == FindFirst(m, p).value
  {
  }
}
