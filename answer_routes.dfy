/** The answer routes: submitting an answer (and notifying the question's
    author), voting on an answer (one vote per user, never on one's own
    answer), and commenting on an answer with @mentions, which notifies the
    answer's author and every mentioned user except the commenter. */
module AnswerRoutes {
  import opened Common
  import opened Text
  import opened Models
  import opened Store

  function AnsweredMessage(name: string): string
  {
    "@" + name + " answered your question"
  }

  function CommentedMessage(name: string): string
  {
    "@" + name + " commented on your answer"
  }

  function MentionedMessage(name: string): string
  {
    "@" + name + " mentioned you in a comment"
  }

  // ---- POST /answers/:questionId ----

  /** Adds an answer to a question. A missing or empty description is 400
      before any lookup; an absent question is 404; a description of white
      space only passes that guard but is rejected by the schema's trim and
      required rule (500). On success the answer is created with its
      defaults, its id goes at the end of the question's answer list, and
      the question's author, unless that is the submitter, gets one unread
      notification. */
  method SubmitAnswer(db: Db, questionId: Id, me: Requester, description: Option<string>, now: nat)
    returns (status: nat, answerId: Option<Id>)
    requires db.Valid()
    modifies db
    ensures db.Valid()
    ensures !Truthy(description) ==> status == 400
    ensures Truthy(description) && questionId !in old(db.questions) ==> status == 404
    ensures Truthy(description) && questionId in old(db.questions) && IsBlank(description.value) ==> status == 500
    ensures status != 201 ==> answerId == None && unchanged(db)
    ensures status == 201 <==> Truthy(description) && questionId in old(db.questions) && !IsBlank(description.value)
    ensures status == 201 ==>
      var q := old(db.questions)[questionId];
      var id := old(db.nextId);
      && answerId == Some(id)
      && id !in old(db.answers)
      && db.answers == old(db.answers)[id := NewAnswer(questionId, me.id, description.value, now)]
      && db.questions == old(db.questions)[questionId := q.(answers := q.answers + [id], updatedAt := now)]
      && db.tags == old(db.tags)
      && db.users == NotifyAsker(old(db.users), q.author, me, id + 1, now)
  {
    if !Truthy(description) {
      return 400, None;
    }
    if questionId !in db.questions {
      return 404, None;
    }
    var answer := NewAnswer(questionId, me.id, description.value, now);
    if !ValidAnswer(answer) {
      return 500, None;
    }
    var id := RecordAnswer(db, questionId, me, answer, now);
    status, answerId := 201, Some(id);
  }

  /** The users after the question's author (the asker), unless that is
      the submitter or no longer stored, gets the notification of a new
      answer, numbered nid. */
  function NotifyAsker(users: map<Id, User>, asker: Id, me: Requester, nid: Id, now: nat): map<Id, User>
  {
    if asker != me.id && asker in users
    then users[asker := Notify(users[asker], nid, AnsweredMessage(me.name), now)]
    else users
  }

  /** The success path of SubmitAnswer: stores the answer and notifies the
      question's author unless that is the submitter. */
  method RecordAnswer(db: Db, questionId: Id, me: Requester, answer: Answer, now: nat) returns (id: Id)
    requires db.Valid() && questionId in db.questions && ValidAnswer(answer)
    modifies db
    ensures db.Valid()
    ensures
      var q := old(db.questions)[questionId];
      && id == old(db.nextId) && id !in old(db.answers)
      && db.answers == old(db.answers)[id := answer]
      && db.questions == old(db.questions)[questionId := q.(answers := q.answers + [id], updatedAt := now)]
      && db.tags == old(db.tags)
    ensures db.users == NotifyAsker(old(db.users), old(db.questions)[questionId].author, me, old(db.nextId) + 1, now)
  {
    var author := db.questions[questionId].author;
    id := AppendAnswer(db, questionId, answer, now);
    NotifyAskerOf(db, author, me, now);
  }

  /** Notifies the asker of a new answer unless the asker is the submitter
      or is no longer stored. */
  method NotifyAskerOf(db: Db, asker: Id, me: Requester, now: nat)
    requires db.Valid()
    modifies db
    ensures db.Valid()
    ensures db.users == NotifyAsker(old(db.users), asker, me, old(db.nextId), now)
    ensures db.questions == old(db.questions) && db.answers == old(db.answers) && db.tags == old(db.tags)
  {
    if asker != me.id && asker in db.users {
      NotifyUser(db, asker, AnsweredMessage(me.name), now);
    }
  }

  /** Stores a new answer under a fresh id and appends that id to the
      question's answer list. */
  method AppendAnswer(db: Db, questionId: Id, answer: Answer, now: nat) returns (id: Id)
    requires db.Valid() && questionId in db.questions && ValidAnswer(answer)
    modifies db
    ensures db.Valid()
    ensures id == old(db.nextId) && id !in old(db.answers) && db.nextId == id + 1
    ensures db.answers == old(db.answers)[id := answer]
    ensures db.questions == old(db.questions)[questionId := old(db.questions)[questionId].(
              answers := old(db.questions)[questionId].answers + [id], updatedAt := now)]
    ensures db.users == old(db.users) && db.tags == old(db.tags)
  {
    id := db.NewId();
    KeysBelowStore(db.answers, id, answer, id, db.nextId);
    StoreAnswerKeepsValid(db.answers, id, answer);
    db.answers := db.answers[id := answer];
    var question := db.questions[questionId];
    question := question.(answers := question.answers + [id], updatedAt := now);
    KeysBelowStore(db.questions, questionId, question, db.nextId, db.nextId);
    StoreQuestionKeepsValid(db.questions, questionId, question);
    db.questions := db.questions[questionId := question];
  }

  // ---- POST /answers/:answerId/vote ----

  /** The vote type of the request body: exactly "up" or "down". */
  function ParseVoteType(t: Option<string>): (r: Option<VoteType>)
    ensures r == Some(Up) <==> t == Some("up")
    ensures r == Some(Down) <==> t == Some("down")
    ensures r.None? <==> t != Some("up") && t != Some("down")
  {
    if t == Some("up") then Some(Up)
    else if t == Some("down") then Some(Down)
    else None
  }

  /** Votes on an answer. The guards run in order: a type other than "up"
      or "down" is 400, an absent answer 404, the answer's own author 403,
      and a user who already holds a voter record on the answer 400. Only
      when all pass is exactly one counter raised by one and one voter
      record appended, so the counters keep matching the records. */
  method Vote(db: Db, answerId: Id, me: Requester, voteType: Option<string>, now: nat) returns (status: nat)
    requires db.Valid()
    modifies db
    ensures db.Valid()
    ensures ParseVoteType(voteType).None? ==> status == 400
    ensures ParseVoteType(voteType).Some? && answerId !in old(db.answers) ==> status == 404
    ensures (ParseVoteType(voteType).Some? && answerId in old(db.answers)
             && old(db.answers)[answerId].author == me.id) ==> status == 403
    ensures (ParseVoteType(voteType).Some? && answerId in old(db.answers)
             && old(db.answers)[answerId].author != me.id
             && HasVoted(old(db.answers)[answerId].voters, me.id)) ==> status == 400
    ensures status != 200 ==> unchanged(db)
    ensures status == 200 <==>
      && ParseVoteType(voteType).Some? && answerId in old(db.answers)
      && old(db.answers)[answerId].author != me.id
      && !HasVoted(old(db.answers)[answerId].voters, me.id)
    ensures status == 200 ==>
      var a := old(db.answers)[answerId];
      var kind := ParseVoteType(voteType).value;
      var votes := if kind == Up then a.votes.(upvotes := a.votes.upvotes + 1)
                   else a.votes.(downvotes := a.votes.downvotes + 1);
      && db.answers == old(db.answers)[answerId := a.(votes := votes, voters := a.voters + [Voter(me.id, kind)], updatedAt := now)]
      && db.users == old(db.users) && db.questions == old(db.questions) && db.tags == old(db.tags)
      && db.nextId == old(db.nextId)
  {
    var kind := ParseVoteType(voteType);
    if kind.None? {
      return 400;
    }
    if answerId !in db.answers {
      return 404;
    }
    var answer := db.answers[answerId];
    if answer.author == me.id {
      return 403;
    }
    if HasVoted(answer.voters, me.id) {
      return 400;
    }
    if kind.value == Up {
      answer := answer.(votes := answer.votes.(upvotes := answer.votes.upvotes + 1));
    } else {
      answer := answer.(votes := answer.votes.(downvotes := answer.votes.downvotes + 1));
    }
    AppendVoter(answer.voters, Voter(me.id, kind.value));
    answer := answer.(voters := answer.voters + [Voter(me.id, kind.value)], updatedAt := now);
    assert ValidAnswer(answer);
    KeysBelowStore(db.answers, answerId, answer, db.nextId, db.nextId);
    StoreAnswerKeepsValid(db.answers, answerId, answer);
    db.answers := db.answers[answerId := answer];
    status := 200;
  }

  // ---- POST /answers/:answerId/comments ----

  /** A character of the class [A-Za-z0-9_]. */
  predicate IsWordChar(c: char)
  {
    ('a' <= c <= 'z') || ('A' <= c <= 'Z') || ('0' <= c <= '9') || c == '_'
  }

  predicate IsName(w: string)
  {
    w != [] && forall k :: 0 <= k < |w| ==> IsWordChar(w[k])
  }

  /** The length of the run of word characters at the start of s. */
  function WordRun(s: string): (n: nat)
    ensures n <= |s|
    ensures forall k :: 0 <= k < n ==> IsWordChar(s[k])
    ensures n < |s| ==> !IsWordChar(s[n])
  {
    if s == [] || !IsWordChar(s[0]) then 0 else 1 + WordRun(s[1..])
  }

  /** `@` at index i of s followed by the maximal run w of word characters:
      a match of /@([a-zA-Z0-9_]+)/ whose group is w. */
  predicate MentionAt(s: string, i: nat, w: string)
  {
    && i + 1 + |w| <= |s|
    && s[i] == '@'
    && IsName(w)
    && s[i + 1..i + 1 + |w|] == w
    && (i + 1 + |w| == |s| || !IsWordChar(s[i + 1 + |w|]))
  }

  /** The names that `text.match(/@([a-zA-Z0-9_]+)/g)` yields, with the
      leading `@` sliced off, in order of occurrence. */
  function MentionNames(s: string): (r: seq<string>)
    ensures forall k :: 0 <= k < |r| ==> IsName(r[k])
    decreases |s|
  {
    if |s| < 2 then []
    else if s[0] == '@' && IsWordChar(s[1]) then
      var n := WordRun(s[1..]);
      [s[1..1 + n]] + MentionNames(s[1 + n..])
    else MentionNames(s[1..])
  }

  /** A name is extracted exactly when some `@` in the text is followed by
      it as a maximal run of word characters, wherever that `@` stands (an
      e-mail address such as x@y.com yields "y"). */
  lemma MentionNamesExact(s: string, w: string)
    ensures w in MentionNames(s) <==> exists i: nat :: MentionAt(s, i, w)
  {
    if w in MentionNames(s) {
      MentionNamesSound(s, w);
    }
    if exists i: nat :: MentionAt(s, i, w) {
      var i: nat :| MentionAt(s, i, w);
      MentionNamesComplete(s, i, w);
    }
  }

  /** The length of the text the scan consumes at the start of s: a whole
      match, or one character. */
  function Step(s: string): (k: nat)
    requires |s| >= 2
    ensures 1 <= k <= |s|
  {
    if s[0] == '@' && IsWordChar(s[1]) then 1 + WordRun(s[1..]) else 1
  }

  lemma MentionNamesStep(s: string)
    requires |s| >= 2
    ensures MentionNames(s) ==
      (if s[0] == '@' && IsWordChar(s[1]) then [s[1..Step(s)]] else []) + MentionNames(s[Step(s)..])
  {
  }

  /** Every extracted name follows an `@` as a maximal run. */
  lemma {:induction false} MentionNamesSound(s: string, w: string)
    requires w in MentionNames(s)
    ensures exists i: nat :: MentionAt(s, i, w)
    decreases |s|
  {
    var k := Step(s);
    MentionNamesStep(s);
    if s[0] == '@' && IsWordChar(s[1]) && w == s[1..k] {
      assert MentionAt(s, 0, w);
    } else {
      MentionNamesSound(s[k..], w);
      var j: nat :| MentionAt(s[k..], j, w);
      MentionShift(s, k, j, w);
    }
  }

  /** Every `@` followed by a maximal run of word characters yields that run. */
  lemma {:induction false} MentionNamesComplete(s: string, i: nat, w: string)
    requires MentionAt(s, i, w)
    ensures w in MentionNames(s)
    decreases |s|
  {
    var k := Step(s);
    MentionNamesStep(s);
    if i == 0 {
      RunIsMaximal(s[1..], w);
    } else {
      MentionNotInRun(s, i, w);
      MentionUnshift(s, k, i, w);
      MentionNamesComplete(s[k..], i - k, w);
    }
  }

  /** An `@` after the start is not inside the run that the scan consumes. */
  lemma MentionNotInRun(s: string, i: nat, w: string)
    requires MentionAt(s, i, w) && i > 0
    ensures i >= Step(s)
  {
    assert !IsWordChar(s[1..][i - 1]);
  }

  lemma MentionShift(s: string, k: nat, j: nat, w: string)
    requires k <= |s| && MentionAt(s[k..], j, w)
    ensures MentionAt(s, k + j, w)
  {
    assert s[k + j + 1..k + j + 1 + |w|] == s[k..][j + 1..j + 1 + |w|];
  }

  lemma MentionUnshift(s: string, k: nat, i: nat, w: string)
    requires k <= i && MentionAt(s, i, w)
    ensures MentionAt(s[k..], i - k, w)
  {
    assert s[k..][i - k + 1..i - k + 1 + |w|] == s[i + 1..i + 1 + |w|];
  }

  /** A name at the start of t that is followed by a non-word character (or
      the end) is the whole leading run. */
  lemma RunIsMaximal(t: string, w: string)
    requires IsName(w) && |w| <= |t| && t[..|w|] == w
    requires |w| == |t| || !IsWordChar(t[|w|])
    ensures WordRun(t) == |w|
  {
  }

  /** `User.find({ name: { $in: names } })`: the ids of the users whose name
      is one of the names, in natural order, each once. */
  function UsersNamed(users: map<Id, User>, names: seq<string>): (r: seq<Id>)
    ensures forall u :: u in r <==> u in users && users[u].name in names
    ensures StrictlyIncreasing(r)
  {
    var keys := SortedKeys(users);
    var named := (u: Id) => u in users && users[u].name in names;
    FilterIds(keys, named);
    Filter(keys, named)
  }

  /** The mentioned users the loop notifies: all but the commenter and the
      answer's author (when that author exists). */
  function MentionRecipients(mentioned: seq<Id>, me: Id, author: Option<Id>): (r: seq<Id>)
    ensures forall u :: u in r <==> u in mentioned && u != me && (author.None? || u != author.value)
  {
    if mentioned == [] then []
    else
      var rest := MentionRecipients(mentioned[..|mentioned| - 1], me, author);
      var u := mentioned[|mentioned| - 1];
      assert forall x :: x in mentioned <==> x in mentioned[..|mentioned| - 1] || x == u;
      if u != me && (author.None? || u != author.value) then rest + [u] else rest
  }

  /** Distinct mentioned users give distinct recipients. */
  lemma {:induction false} MentionRecipientsDistinct(mentioned: seq<Id>, me: Id, author: Option<Id>)
    requires StrictlyIncreasing(mentioned)
    ensures StrictlyIncreasing(MentionRecipients(mentioned, me, author))
  {
    if mentioned != [] {
      var init := mentioned[..|mentioned| - 1];
      MentionRecipientsDistinct(init, me, author);
      var rest := MentionRecipients(init, me, author);
      assert forall k :: 0 <= k < |rest| ==> rest[k] in init;
    }
  }

  /** The users map after the fan-out loop: each id in ids, in order, gets
      one notification, numbered from firstId. */
  function NotifyAll(users: map<Id, User>, ids: seq<Id>, message: string, now: nat, firstId: nat): (r: map<Id, User>)
    ensures r.Keys == users.Keys
    decreases |ids|
  {
    if ids == [] then users
    else
      var prev := NotifyAll(users, ids[..|ids| - 1], message, now, firstId);
      var u := ids[|ids| - 1];
      if u in prev then prev[u := Notify(prev[u], firstId + |ids| - 1, message, now)] else prev
  }

  /** With distinct ids, the user at position k of ids gets exactly one new
      notification, numbered firstId + k. */
  lemma {:induction false} NotifyAllAt(users: map<Id, User>, ids: seq<Id>, message: string, now: nat, firstId: nat, k: nat)
    requires StrictlyIncreasing(ids)
    requires k < |ids| && ids[k] in users
    ensures NotifyAll(users, ids, message, now, firstId)[ids[k]] == Notify(users[ids[k]], firstId + k, message, now)
    decreases |ids|
  {
    var init := ids[..|ids| - 1];
    if k < |ids| - 1 {
      assert init[k] == ids[k];
      NotifyAllAt(users, init, message, now, firstId, k);
    } else {
      NotifyAllOthers(users, init, message, now, firstId, ids[k]);
    }
  }

  /** A user not in ids is left as it was. */
  lemma {:induction false} NotifyAllOthers(users: map<Id, User>, ids: seq<Id>, message: string, now: nat, firstId: nat, u: Id)
    requires StrictlyIncreasing(ids)
    requires u in users && u !in ids
    ensures NotifyAll(users, ids, message, now, firstId)[u] == users[u]
    decreases |ids|
  {
    if ids != [] {
      var init := ids[..|ids| - 1];
      assert u !in init;
      NotifyAllOthers(users, init, message, now, firstId, u);
    }
  }

  /** Notifying users keeps every user valid and leaves names and e-mails
      as they were. */
  lemma {:induction false} NotifyAllPointwise(users: map<Id, User>, ids: seq<Id>, message: string, now: nat, firstId: nat)
    requires message != []
    ensures forall u :: u in users ==>
      var v := NotifyAll(users, ids, message, now, firstId)[u];
      && v.name == users[u].name && v.email == users[u].email
      && (ValidUser(users[u]) ==> ValidUser(v))
    decreases |ids|
  {
    if ids != [] {
      NotifyAllPointwise(users, ids[..|ids| - 1], message, now, firstId);
    }
  }

  /** Notifying users keeps the users valid. */
  lemma NotifyAllKeepsValid(users: map<Id, User>, ids: seq<Id>, message: string, now: nat, firstId: nat)
    requires UsersValid(users) && message != []
    ensures UsersValid(NotifyAll(users, ids, message, now, firstId))
  {
    NotifyAllPointwise(users, ids, message, now, firstId);
    SameKeysKeepValid(users, NotifyAll(users, ids, message, now, firstId));
  }

  /** Appends a comment to a stored answer. */
  method AppendComment(db: Db, answerId: Id, c: Comment, now: nat)
    requires db.Valid() && answerId in db.answers && ValidComment(c)
    modifies db
    ensures db.Valid()
    ensures db.answers == old(db.answers)[answerId := old(db.answers)[answerId].(
              comments := old(db.answers)[answerId].comments + [c], updatedAt := now)]
    ensures db.users == old(db.users) && db.questions == old(db.questions)
    ensures db.tags == old(db.tags) && db.nextId == old(db.nextId)
  {
    var answer := db.answers[answerId];
    answer := answer.(comments := answer.comments + [c], updatedAt := now);
    KeysBelowStore(db.answers, answerId, answer, db.nextId, db.nextId);
    StoreAnswerKeepsValid(db.answers, answerId, answer);
    db.answers := db.answers[answerId := answer];
  }

  /** The loop over the mentioned users: each one other than the commenter
      and the answer's author gets one notification, in order. */
  method NotifyMentioned(db: Db, mentioned: seq<Id>, me: Requester, author: Option<Id>, now: nat)
    requires forall u :: u in mentioned ==> u in db.users
    modifies db
    ensures db.users == NotifyAll(old(db.users), MentionRecipients(mentioned, me.id, author), MentionedMessage(me.name), now, old(db.nextId))
    ensures db.nextId == old(db.nextId) + |MentionRecipients(mentioned, me.id, author)|
    ensures db.answers == old(db.answers) && db.questions == old(db.questions) && db.tags == old(db.tags)
  {
    var i := 0;
    while i < |mentioned|
      invariant 0 <= i <= |mentioned|
      invariant db.users == NotifyAll(old(db.users), MentionRecipients(mentioned[..i], me.id, author), MentionedMessage(me.name), now, old(db.nextId))
      invariant db.nextId == old(db.nextId) + |MentionRecipients(mentioned[..i], me.id, author)|
      invariant db.answers == old(db.answers) && db.questions == old(db.questions) && db.tags == old(db.tags)
    {
      var m := mentioned[i];
      ghost var done := MentionRecipients(mentioned[..i], me.id, author);
      RecipientsStep(mentioned, i, me.id, author);
      if m != me.id && (author.None? || m != author.value) {
        NotifyAllStep(old(db.users), done, m, MentionedMessage(me.name), now, old(db.nextId));
        var nid := db.NewId();
        db.users := db.users[m := Notify(db.users[m], nid, MentionedMessage(me.name), now)];
      } else {
        assert done + [] == done;
      }
      i := i + 1;
    }
    assert mentioned[..|mentioned|] == mentioned;
  }

  /** One more mentioned user adds that user to the recipients unless it
      is the commenter or the answer's author. */
  lemma RecipientsStep(mentioned: seq<Id>, i: nat, me: Id, author: Option<Id>)
    requires i < |mentioned|
    ensures var m := mentioned[i];
      MentionRecipients(mentioned[..i + 1], me, author) ==
        MentionRecipients(mentioned[..i], me, author) + (if m != me && (author.None? || m != author.value) then [m] else [])
  {
    assert mentioned[..i + 1][..i] == mentioned[..i];
  }

  /** One more recipient: its notification is numbered after those of the
      recipients before it. */
  lemma NotifyAllStep(users: map<Id, User>, ids: seq<Id>, u: Id, message: string, now: nat, firstId: nat)
    ensures var prev := NotifyAll(users, ids, message, now, firstId);
      NotifyAll(users, ids + [u], message, now, firstId) ==
        if u in prev then prev[u := Notify(prev[u], firstId + |ids|, message, now)] else prev
  {
    assert (ids + [u])[..|ids|] == ids;
  }

  /** The users and the next free id after the notifications that a
      comment by me on an answer by answerAuthor sends: first the answer's
      author (when that user exists and is not me), then each recipient
      among the mentioned users. */
  function CommentNotifications(users: map<Id, User>, nextId: nat, answerAuthor: Id, me: Requester, mentioned: seq<Id>, now: nat)
    : (r: (map<Id, User>, nat))
    ensures r.0.Keys == users.Keys
    ensures r.1 >= nextId
  {
    var author := if answerAuthor in users then Some(answerAuthor) else None;
    var notifyAuthor := author.Some? && answerAuthor != me.id;
    var afterAuthor := if notifyAuthor
                       then users[answerAuthor := Notify(users[answerAuthor], nextId, CommentedMessage(me.name), now)]
                       else users;
    var firstId := if notifyAuthor then nextId + 1 else nextId;
    var recipients := MentionRecipients(mentioned, me.id, author);
    (NotifyAll(afterAuthor, recipients, MentionedMessage(me.name), now, firstId), firstId + |recipients|)
  }

  /** Who hears about a comment: the answer's author gets exactly one
      "commented" notification unless they wrote the comment; a mentioned
      user other than the commenter and the answer's author gets exactly one
      "mentioned" notification; everyone else is left as they were. */
  lemma CommentNotificationsEffect(users: map<Id, User>, nextId: nat, answerAuthor: Id, me: Requester, mentioned: seq<Id>, now: nat, u: Id)
    requires StrictlyIncreasing(mentioned)
    requires u in users
    ensures var r := CommentNotifications(users, nextId, answerAuthor, me, mentioned, now).0;
      && (u == answerAuthor && u != me.id ==>
            r[u] == Notify(users[u], nextId, CommentedMessage(me.name), now))
      && (u in mentioned && u != me.id && u != answerAuthor ==>
            exists nid :: nextId <= nid && r[u] == Notify(users[u], nid, MentionedMessage(me.name), now))
      && (u != answerAuthor && u !in mentioned ==> r[u] == users[u])
      && (u == me.id ==> r[u] == users[u])
  {
    var author := if answerAuthor in users then Some(answerAuthor) else None;
    var notifyAuthor := author.Some? && answerAuthor != me.id;
    var afterAuthor := if notifyAuthor
                       then users[answerAuthor := Notify(users[answerAuthor], nextId, CommentedMessage(me.name), now)]
                       else users;
    var firstId := if notifyAuthor then nextId + 1 else nextId;
    var recipients := MentionRecipients(mentioned, me.id, author);
    MentionRecipientsDistinct(mentioned, me.id, author);
    if u in recipients {
      var k :| 0 <= k < |recipients| && recipients[k] == u;
      NotifyAllAt(afterAuthor, recipients, MentionedMessage(me.name), now, firstId, k);
    } else {
      NotifyAllOthers(afterAuthor, recipients, MentionedMessage(me.name), now, firstId, u);
    }
  }

  /** Comments on an answer. Text that is missing or white space only is
      400; an absent answer 404. Otherwise the candidate names are the
      @mentions of the text, and only those naming an existing user (exact
      match) become mention ids; unknown names are ignored. The comment goes
      at the end of the answer's comments. The answer's author, when that
      user exists and is not the commenter, gets one notification; then each
      resolved mentioned user other than the commenter and the answer's
      author gets one, in natural order. */
  method AddComment(db: Db, answerId: Id, me: Requester, text: Option<string>, now: nat) returns (status: nat)
    requires db.Valid()
    modifies db
    ensures db.Valid()
    ensures text.None? || IsBlank(text.value) ==> status == 400
    ensures text.Some? && !IsBlank(text.value) && answerId !in old(db.answers) ==> status == 404
    ensures status != 201 ==> unchanged(db)
    ensures status == 201 <==> text.Some? && !IsBlank(text.value) && answerId in old(db.answers)
    ensures status == 201 ==>
      var a := old(db.answers)[answerId];
      var mentioned := UsersNamed(old(db.users), MentionNames(text.value));
      && db.answers == old(db.answers)[answerId := a.(comments := a.comments + [Comment(me.id, text.value, mentioned, now)], updatedAt := now)]
      && (db.users, db.nextId) == CommentNotifications(old(db.users), old(db.nextId), a.author, me, mentioned, now)
      && db.questions == old(db.questions) && db.tags == old(db.tags)
  {
    if text.None? || IsBlank(text.value) {
      return 400;
    }
    if answerId !in db.answers {
      return 404;
    }
    CommentOn(db, answerId, me, text.value, now);
    status := 201;
  }

  /** The effect of a comment that passed the guards. */
  method CommentOn(db: Db, answerId: Id, me: Requester, text: string, now: nat)
    requires db.Valid() && answerId in db.answers && !IsBlank(text)
    modifies db
    ensures db.Valid()
    ensures
      var a := old(db.answers)[answerId];
      var mentioned := UsersNamed(old(db.users), MentionNames(text));
      && db.answers == old(db.answers)[answerId := a.(comments := a.comments + [Comment(me.id, text, mentioned, now)], updatedAt := now)]
      && (db.users, db.nextId) == CommentNotifications(old(db.users), old(db.nextId), a.author, me, mentioned, now)
      && db.questions == old(db.questions) && db.tags == old(db.tags)
  {
    var mentioned := UsersNamed(db.users, MentionNames(text));
    AppendComment(db, answerId, Comment(me.id, text, mentioned, now), now);
    ghost var users, nextId := db.users, db.nextId;
    CommentNotificationsKeepValid(users, nextId, db.answers[answerId].author, me, mentioned, now);
    NotifyComment(db, db.answers[answerId].author, me, mentioned, now);
    KeysBelowGrow(db.questions, nextId, db.nextId);
    KeysBelowGrow(db.answers, nextId, db.nextId);
    KeysBelowGrow(db.tags, nextId, db.nextId);
  }

  /** The notifications of a comment, sent to the stored users. */
  method NotifyComment(db: Db, answerAuthor: Id, me: Requester, mentioned: seq<Id>, now: nat)
    requires forall u :: u in mentioned ==> u in db.users
    modifies db
    ensures (db.users, db.nextId) == CommentNotifications(old(db.users), old(db.nextId), answerAuthor, me, mentioned, now)
    ensures db.answers == old(db.answers) && db.questions == old(db.questions) && db.tags == old(db.tags)
  {
    var author: Option<Id> := if answerAuthor in db.users then Some(answerAuthor) else None;
    if author.Some? && answerAuthor != me.id {
      var nid := db.NewId();
      db.users := db.users[answerAuthor := Notify(db.users[answerAuthor], nid, CommentedMessage(me.name), now)];
    }
    NotifyMentioned(db, mentioned, me, author, now);
  }

  /** The notifications of a comment keep the users valid and every id
      below the next free one. */
  lemma CommentNotificationsKeepValid(users: map<Id, User>, nextId: nat, answerAuthor: Id, me: Requester, mentioned: seq<Id>, now: nat)
    requires UsersValid(users) && KeysBelow(users, nextId)
    ensures UsersValid(CommentNotifications(users, nextId, answerAuthor, me, mentioned, now).0)
  {
    var author := if answerAuthor in users then Some(answerAuthor) else None;
    var notifyAuthor := author.Some? && answerAuthor != me.id;
    var afterAuthor := users;
    if notifyAuthor {
      NotifyKeepsUsersValid(users, answerAuthor, nextId, CommentedMessage(me.name), now);
      afterAuthor := users[answerAuthor := Notify(users[answerAuthor], nextId, CommentedMessage(me.name), now)];
    }
    var firstId := if notifyAuthor then nextId + 1 else nextId;
    NotifyAllKeepsValid(afterAuthor, MentionRecipients(mentioned, me.id, author), MentionedMessage(me.name), now, firstId);
  }
}
