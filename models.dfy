/** The four document kinds of the forum (User with its embedded
    notifications, Question, Answer with its votes, voters and comments, and
    Tag), the defaults a new document receives, and the schema rules a saved
    document must satisfy. Timestamps are abstract natural numbers. */
module Models {
  import opened Common
  import opened Text

  /** `role` is one of 'user' and 'admin'. */
  datatype Role = Member | Admin

  datatype Notification = Notification(id: Id, message: string, isRead: bool, createdAt: nat)

  /** `password` stands for the stored credential; hashing is not modelled. */
  datatype User = User(
    name: string,
    email: string,
    password: string,
    role: Role,
    avatar: string,
    bio: string,
    location: string,
    website: string,
    notifications: seq<Notification>,
    createdAt: nat,
    updatedAt: nat)

  datatype VoteType = Up | Down

  /** One user's vote on an answer. */
  datatype Voter = Voter(user: Id, kind: VoteType)

  datatype Votes = Votes(upvotes: nat, downvotes: nat)

  datatype Comment = Comment(user: Id, text: string, mentions: seq<Id>, createdAt: nat)

  datatype Answer = Answer(
    question: Id,
    author: Id,
    description: string,
    isAccepted: bool,
    votes: Votes,
    voters: seq<Voter>,
    comments: seq<Comment>,
    createdAt: nat,
    updatedAt: nat)

  datatype Question = Question(
    title: string,
    description: string,
    tags: seq<Id>,
    author: Id,
    answers: seq<Id>,
    acceptedAnswer: Option<Id>,
    createdAt: nat,
    updatedAt: nat)

  datatype Tag = Tag(name: string, createdAt: nat, updatedAt: nat)

  const MinPasswordLength: nat := 6
  const MaxBioLength: nat := 500

  /** A required, trimmed string field holds a non-empty trimmed value. */
  predicate RequiredTrimmed(s: string)
  {
    s != [] && IsTrimmed(s)
  }

  // ---- Voters and vote counters ----

  /** The number of voter records of the given type. */
  function CountVotes(vs: seq<Voter>, kind: VoteType): (n: nat)
    ensures n <= |vs|
  {
    if vs == [] then 0
    else CountVotes(vs[..|vs| - 1], kind) + (if vs[|vs| - 1].kind == kind then 1 else 0)
  }

  predicate HasVoted(vs: seq<Voter>, user: Id)
  {
    exists i :: 0 <= i < |vs| && vs[i].user == user
  }

  /** No user holds two voter records. */
  predicate OneVotePerUser(vs: seq<Voter>)
  {
    forall i, j :: 0 <= i < j < |vs| ==> vs[i].user != vs[j].user
  }

  /** The counters agree with the voter records. */
  predicate VotesMatchVoters(a: Answer)
  {
    a.votes.upvotes == CountVotes(a.voters, Up) && a.votes.downvotes == CountVotes(a.voters, Down)
  }

  /** Every voter record is either an up or a down vote, so the two counters
      together count every record. */
  lemma {:induction false} CountVotesTotal(vs: seq<Voter>)
    ensures CountVotes(vs, Up) + CountVotes(vs, Down) == |vs|
  {
    if vs != [] {
      CountVotesTotal(vs[..|vs| - 1]);
    }
  }

  /** Appending one voter record of a user who has not voted keeps one vote
      per user and raises exactly the counter of its type by one. */
  lemma AppendVoter(vs: seq<Voter>, v: Voter)
    requires OneVotePerUser(vs) && !HasVoted(vs, v.user)
    ensures OneVotePerUser(vs + [v])
    ensures CountVotes(vs + [v], v.kind) == CountVotes(vs, v.kind) + 1
    ensures forall k :: k != v.kind ==> CountVotes(vs + [v], k) == CountVotes(vs, k)
  {
    assert (vs + [v])[..|vs|] == vs;
  }

  // ---- Schema rules ----

  predicate ValidNotification(n: Notification)
  {
    n.message != []
  }

  /** User schema: name required and trimmed, email required, lower-case and
      trimmed, password of at least six characters, bio of at most 500. */
  predicate ValidUser(u: User)
  {
    && RequiredTrimmed(u.name)
    && RequiredTrimmed(u.email) && IsLower(u.email)
    && |u.password| >= MinPasswordLength
    && |u.bio| <= MaxBioLength
    && forall i :: 0 <= i < |u.notifications| ==> ValidNotification(u.notifications[i])
  }

  predicate ValidComment(c: Comment)
  {
    c.text != []
  }

  /** Answer schema: a trimmed description is required, and the vote
      counters and voter records agree with at most one record per user. */
  predicate ValidAnswer(a: Answer)
  {
    && RequiredTrimmed(a.description)
    && VotesMatchVoters(a)
    && OneVotePerUser(a.voters)
    && forall i :: 0 <= i < |a.comments| ==> ValidComment(a.comments[i])
  }

  /** Question schema: title and description are required and trimmed. */
  predicate ValidQuestion(q: Question)
  {
    RequiredTrimmed(q.title) && RequiredTrimmed(q.description)
  }

  /** Tag schema: the name is required and trimmed. */
  predicate ValidTag(t: Tag)
  {
    RequiredTrimmed(t.name)
  }

  // ---- New documents with their defaults ----

  /** A new answer: the description passes through the schema's trim, it is
      not accepted, both counters are 0, and it has no voters or comments. */
  function NewAnswer(question: Id, author: Id, description: string, now: nat): (a: Answer)
    ensures a.question == question && a.author == author
    ensures a.description == Trim(description)
    ensures !a.isAccepted && a.votes == Votes(0, 0)
    ensures a.voters == [] && a.comments == []
    ensures a.createdAt == now
    ensures ValidAnswer(a) <==> !IsBlank(description)
  {
    Answer(question, author, Trim(description), false, Votes(0, 0), [], [], now, now)
  }

  /** A new question: title and description trimmed by the schema, no
      answers yet, and no accepted answer (null). */
  function NewQuestion(title: string, description: string, tags: seq<Id>, author: Id, now: nat): (q: Question)
    ensures q.title == Trim(title) && q.description == Trim(description)
    ensures q.tags == tags && q.author == author
    ensures q.answers == [] && q.acceptedAnswer == None
    ensures q.createdAt == now
    ensures ValidQuestion(q) <==> !IsBlank(title) && !IsBlank(description)
  {
    Question(Trim(title), Trim(description), tags, author, [], None, now, now)
  }

  /** A new tag: the schema trims the name it is given. */
  function NewTag(name: string, now: nat): (t: Tag)
    ensures t.name == Trim(name) && t.createdAt == now && t.updatedAt == now
    ensures ValidTag(t) <==> !IsBlank(name)
  {
    Tag(Trim(name), now, now)
  }

  /** A new user: name trimmed, email lower-cased and trimmed, role 'user',
      empty profile fields and no notifications. */
  function NewUser(name: string, email: string, password: string, now: nat): (u: User)
    ensures u.name == Trim(name) && u.email == Normalize(email) && u.password == password
    ensures u.role == Member
    ensures u.avatar == [] && u.bio == [] && u.location == [] && u.website == []
    ensures u.notifications == []
    ensures ValidUser(u) <==> !IsBlank(name) && !IsBlank(email) && |password| >= MinPasswordLength
  {
    NormalizeShape(email);
    User(Trim(name), Normalize(email), password, Member, [], [], [], [], [], now, now)
  }

  /** A new notification is unread. */
  function NewNotification(id: Id, message: string, now: nat): (n: Notification)
    ensures n.id == id && n.message == message && !n.isRead && n.createdAt == now
  {
    Notification(id, message, false, now)
  }

  /** The user with one more notification at the end, saved at time now. */
  function Notify(u: User, id: Id, message: string, now: nat): (v: User)
    ensures v.notifications == u.notifications + [NewNotification(id, message, now)]
    ensures v == u.(notifications := v.notifications, updatedAt := now)
  {
    u.(notifications := u.notifications + [NewNotification(id, message, now)], updatedAt := now)
  }
}
