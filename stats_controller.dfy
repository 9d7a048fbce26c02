/** The statistics of the signed-in user: how many questions and answers
    they wrote, and the five newest of each, as titles or descriptions with
    their ids in matching positions. */
module StatsController {
  import opened Common
  import opened Sorting
  import opened Models
  import opened Store
  import opened QuestionRoutes

  /** At most this many recent questions and answers are listed. */
  const RecentLimit: nat := 5

  datatype Stats = Stats(questionCount: nat, answerCount: nat, questions: seq<string>, answers: seq<string>,
                         questionIds: seq<Id>, answerIds: seq<Id>)

  /** The ids of the questions the user wrote (`countDocuments({ author })`). */
  function QuestionsBy(questions: map<Id, Question>, user: Id): set<Id>
  {
    SelectedIds(questions, QuestionAuthor(user))
  }

  function AnswersBy(answers: map<Id, Answer>, user: Id): set<Id>
  {
    SelectedIds(answers, AnswerAuthor(user))
  }

  function QuestionAuthor(user: Id): Question -> bool
  {
    (q: Question) => q.author == user
  }

  function AnswerAuthor(user: Id): Answer -> bool
  {
    (a: Answer) => a.author == user
  }

  /** "May come before" for answers newest first. */
  predicate NewerAnswer(a: (Id, Answer), b: (Id, Answer))
  {
    a.1.createdAt >= b.1.createdAt
  }

  lemma NewerAnswerIsPreorder()
    ensures TotalPreorder(NewerAnswer)
  {
  }

  /** The stored answers that keep selects, newest first. */
  function NewestAnswers(answers: map<Id, Answer>, keep: Answer -> bool): (r: seq<(Id, Answer)>)
    ensures SortedBy(r, NewerAnswer)
    ensures forall i :: 0 <= i < |r| ==> r[i].0 in answers && answers[r[i].0] == r[i].1 && keep(r[i].1)
    ensures forall i, j :: 0 <= i < j < |r| ==> r[i].0 != r[j].0
  {
    NewerAnswerIsPreorder();
    var sorted := Sort(Filter(Rows(answers), RowFilter(keep)), NewerAnswer);
    ChosenSound(answers, keep, sorted);
    ChosenDistinct(answers, keep, sorted);
    sorted
  }

  /** The selection holds one row per stored answer that keep selects. */
  lemma NewestAnswersCount(answers: map<Id, Answer>, keep: Answer -> bool)
    ensures |NewestAnswers(answers, keep)| == |SelectedIds(answers, keep)|
  {
    NewerAnswerIsPreorder();
    var sorted := Sort(Filter(Rows(answers), RowFilter(keep)), NewerAnswer);
    assert NewestAnswers(answers, keep) == sorted;
    ChosenCount(answers, keep, sorted);
  }

  /** Five, or all of them when the user wrote fewer. */
  function RecentCount(written: nat): nat
  {
    if written <= RecentLimit then written else RecentLimit
  }

  /** Every stored answer that keep selects is in the selection. */
  lemma NewestAnswersComplete(answers: map<Id, Answer>, keep: Answer -> bool, id: Id)
    requires id in answers && keep(answers[id])
    ensures (id, answers[id]) in NewestAnswers(answers, keep)
  {
    NewerAnswerIsPreorder();
    ChosenComplete(answers, keep, Sort(Filter(Rows(answers), RowFilter(keep)), NewerAnswer));
  }

  /** The user's questions, newest first, each once: five of them, or all
      when the user wrote fewer. */
  function RecentQuestions(questions: map<Id, Question>, user: Id): (r: seq<(Id, Question)>)
    ensures |r| == RecentCount(|QuestionsBy(questions, user)|)
    ensures SortedBy(r, NewerOrSame)
    ensures forall i :: 0 <= i < |r| ==> r[i].0 in questions && questions[r[i].0] == r[i].1 && r[i].1.author == user
    ensures forall i, j :: 0 <= i < j < |r| ==> r[i].0 != r[j].0
  {
    var all := NewestFirst(questions, QuestionAuthor(user));
    var r := Take(all, RecentLimit);
    SortedPrefix(all, NewerOrSame, |r|);
    NewestFirstCount(questions, QuestionAuthor(user));
    assert |all| == |QuestionsBy(questions, user)|;
    TakeDistinctIds(all, RecentLimit);
    forall i | 0 <= i < |r|
      ensures r[i].0 in questions && questions[r[i].0] == r[i].1 && r[i].1.author == user
    {
      assert r[i] == all[i];
      assert QuestionAuthor(user)(all[i].1);
    }
    r
  }

  /** The user's answers, newest first, each once: five of them, or all
      when the user wrote fewer. */
  function RecentAnswers(answers: map<Id, Answer>, user: Id): (r: seq<(Id, Answer)>)
    ensures |r| == RecentCount(|AnswersBy(answers, user)|)
    ensures SortedBy(r, NewerAnswer)
    ensures forall i :: 0 <= i < |r| ==> r[i].0 in answers && answers[r[i].0] == r[i].1 && r[i].1.author == user
    ensures forall i, j :: 0 <= i < j < |r| ==> r[i].0 != r[j].0
  {
    var all := NewestAnswers(answers, AnswerAuthor(user));
    var r := Take(all, RecentLimit);
    SortedPrefix(all, NewerAnswer, |r|);
    NewestAnswersCount(answers, AnswerAuthor(user));
    assert |all| == |AnswersBy(answers, user)|;
    TakeDistinctIds(all, RecentLimit);
    forall i | 0 <= i < |r|
      ensures r[i].0 in answers && answers[r[i].0] == r[i].1 && r[i].1.author == user
    {
      assert r[i] == all[i];
      assert AnswerAuthor(user)(all[i].1);
    }
    r
  }

  /** The listed question ids and titles of user: as many as RecentCount
      allows, each a distinct stored question of theirs with its own title
      at the same position, newest first. */
  predicate QuestionColumns(questions: map<Id, Question>, user: Id, ids: seq<Id>, titles: seq<string>)
  {
    && |titles| == |ids| == RecentCount(|QuestionsBy(questions, user)|)
    && (forall i, j :: 0 <= i < j < |ids| ==> ids[i] != ids[j])
    && (forall i :: 0 <= i < |ids| ==>
          ids[i] in questions && questions[ids[i]].author == user && questions[ids[i]].title == titles[i])
    && (forall i, j :: 0 <= i < j < |ids| && ids[i] in questions && ids[j] in questions ==>
          questions[ids[i]].createdAt >= questions[ids[j]].createdAt)
  }

  /** The same for the listed answer ids and descriptions. */
  predicate AnswerColumns(answers: map<Id, Answer>, user: Id, ids: seq<Id>, texts: seq<string>)
  {
    && |texts| == |ids| == RecentCount(|AnswersBy(answers, user)|)
    && (forall i, j :: 0 <= i < j < |ids| ==> ids[i] != ids[j])
    && (forall i :: 0 <= i < |ids| ==>
          ids[i] in answers && answers[ids[i]].author == user && answers[ids[i]].description == texts[i])
    && (forall i, j :: 0 <= i < j < |ids| && ids[i] in answers && ids[j] in answers ==>
          answers[ids[i]].createdAt >= answers[ids[j]].createdAt)
  }

  /** The statistics of the requester. The counts are the numbers of
      questions and answers they wrote; the lists hold the newest of them,
      five each (all of them when fewer), no document twice, and titles line
      up with question ids and descriptions with answer ids, position by
      position. */
  function GetMyStats(questions: map<Id, Question>, answers: map<Id, Answer>, me: Requester): (r: Stats)
    ensures r.questionCount == |QuestionsBy(questions, me.id)| && r.answerCount == |AnswersBy(answers, me.id)|
    ensures QuestionColumns(questions, me.id, r.questionIds, r.questions)
    ensures AnswerColumns(answers, me.id, r.answerIds, r.answers)
  {
    var qs := RecentQuestions(questions, me.id);
    var ans := RecentAnswers(answers, me.id);
    RecentQuestionColumns(questions, me.id);
    RecentAnswerColumns(answers, me.id);
    Stats(|QuestionsBy(questions, me.id)|, |AnswersBy(answers, me.id)|,
          Titles(qs), Descriptions(ans), IdsOf(qs), IdsOf(ans))
  }

  /** The id and title columns of the recent questions. */
  lemma RecentQuestionColumns(questions: map<Id, Question>, user: Id)
    ensures var qs := RecentQuestions(questions, user);
      QuestionColumns(questions, user, IdsOf(qs), Titles(qs))
  {
    var qs := RecentQuestions(questions, user);
    IdsOfDistinct(qs);
    var ids := IdsOf(qs);
    forall i, j | 0 <= i < j < |ids| && ids[i] in questions && ids[j] in questions
      ensures questions[ids[i]].createdAt >= questions[ids[j]].createdAt
    {
      assert NewerOrSame(qs[i], qs[j]);
    }
  }

  /** The id and description columns of the recent answers. */
  lemma RecentAnswerColumns(answers: map<Id, Answer>, user: Id)
    ensures var ans := RecentAnswers(answers, user);
      AnswerColumns(answers, user, IdsOf(ans), Descriptions(ans))
  {
    var ans := RecentAnswers(answers, user);
    IdsOfDistinct(ans);
    var ids := IdsOf(ans);
    forall i, j | 0 <= i < j < |ids| && ids[i] in answers && ids[j] in answers
      ensures answers[ids[i]].createdAt >= answers[ids[j]].createdAt
    {
      assert NewerAnswer(ans[i], ans[j]);
    }
  }

  /** `questions.map(q => q.title)`. */
  function Titles(rows: seq<(Id, Question)>): (r: seq<string>)
    ensures |r| == |rows| && forall i :: 0 <= i < |rows| ==> r[i] == rows[i].1.title
  {
    seq(|rows|, i requires 0 <= i < |rows| => rows[i].1.title)
  }

  /** `answers.map(a => a.description)`. */
  function Descriptions(rows: seq<(Id, Answer)>): (r: seq<string>)
    ensures |r| == |rows| && forall i :: 0 <= i < |rows| ==> r[i] == rows[i].1.description
  {
    seq(|rows|, i requires 0 <= i < |rows| => rows[i].1.description)
  }

  /** `.map(d => d._id)`. */
  function IdsOf<V>(rows: seq<(Id, V)>): (r: seq<Id>)
    ensures |r| == |rows| && forall i :: 0 <= i < |rows| ==> r[i] == rows[i].0
  {
    seq(|rows|, i requires 0 <= i < |rows| => rows[i].0)
  }

  /** Rows with distinct ids give distinct ids. */
  lemma IdsOfDistinct<V>(rows: seq<(Id, V)>)
    requires forall i, j :: 0 <= i < j < |rows| ==> rows[i].0 != rows[j].0
    ensures var ids := IdsOf(rows); forall i, j :: 0 <= i < j < |ids| ==> ids[i] != ids[j]
  {
  }

  /** The id of every row is listed. */
  lemma IdsOfCover<V>(rows: seq<(Id, V)>)
    ensures forall x :: x in rows ==> x.0 in IdsOf(rows)
  {
    forall x | x in rows
      ensures x.0 in IdsOf(rows)
    {
      var j :| 0 <= j < |rows| && rows[j] == x;
      assert IdsOf(rows)[j] == x.0;
    }
  }

  /** No newer question of the requester is left out: one that is not
      listed means five are listed, each at least as new. */
  lemma RecentQuestionsAreNewest(questions: map<Id, Question>, answers: map<Id, Answer>, me: Requester, id: Id)
    requires id in questions && questions[id].author == me.id
    requires id !in GetMyStats(questions, answers, me).questionIds
    ensures var r := GetMyStats(questions, answers, me);
      && |r.questionIds| == RecentLimit
      && forall i :: 0 <= i < |r.questionIds| ==> questions[r.questionIds[i]].createdAt >= questions[id].createdAt
  {
    var qs := RecentQuestions(questions, me.id);
    assert GetMyStats(questions, answers, me).questionIds == IdsOf(qs);
    RecentQuestionsTop(questions, me.id, id);
  }

  lemma RecentQuestionsTop(questions: map<Id, Question>, user: Id, id: Id)
    requires id in questions && questions[id].author == user
    requires id !in IdsOf(RecentQuestions(questions, user))
    ensures var ids := IdsOf(RecentQuestions(questions, user));
      && |ids| == RecentLimit
      && forall i :: 0 <= i < |ids| ==> questions[ids[i]].createdAt >= questions[id].createdAt
  {
    NewerOrSameIsPreorder();
    var all := NewestFirst(questions, QuestionAuthor(user));
    var x := (id, questions[id]);
    NewestFirstComplete(questions, QuestionAuthor(user), id);
    var qs := RecentQuestions(questions, user);
    var ids := IdsOf(qs);
    assert qs == Take(all, RecentLimit);
    IdsOfCover(qs);
    PrefixIsTop(all, NewerOrSame, RecentLimit, x);
    forall i | 0 <= i < |ids|
      ensures questions[ids[i]].createdAt >= questions[id].createdAt
    {
      assert ids[i] == all[i].0 && NewerOrSame(all[i], x);
    }
  }

  /** No newer answer of the requester is left out. */
  lemma RecentAnswersAreNewest(questions: map<Id, Question>, answers: map<Id, Answer>, me: Requester, id: Id)
    requires id in answers && answers[id].author == me.id
    requires id !in GetMyStats(questions, answers, me).answerIds
    ensures var r := GetMyStats(questions, answers, me);
      && |r.answerIds| == RecentLimit
      && forall i :: 0 <= i < |r.answerIds| ==> answers[r.answerIds[i]].createdAt >= answers[id].createdAt
  {
    var ans := RecentAnswers(answers, me.id);
    assert GetMyStats(questions, answers, me).answerIds == IdsOf(ans);
    RecentAnswersTop(answers, me.id, id);
  }

  lemma RecentAnswersTop(answers: map<Id, Answer>, user: Id, id: Id)
    requires id in answers && answers[id].author == user
    requires id !in IdsOf(RecentAnswers(answers, user))
    ensures var ids := IdsOf(RecentAnswers(answers, user));
      && |ids| == RecentLimit
      && forall i :: 0 <= i < |ids| ==> answers[ids[i]].createdAt >= answers[id].createdAt
  {
    NewerAnswerIsPreorder();
    var all := NewestAnswers(answers, AnswerAuthor(user));
    var x := (id, answers[id]);
    NewestAnswersComplete(answers, AnswerAuthor(user), id);
    var ans := RecentAnswers(answers, user);
    var ids := IdsOf(ans);
    assert ans == Take(all, RecentLimit);
    IdsOfCover(ans);
    PrefixIsTop(all, NewerAnswer, RecentLimit, x);
    forall i | 0 <= i < |ids|
      ensures answers[ids[i]].createdAt >= answers[id].createdAt
    {
      assert ids[i] == all[i].0 && NewerAnswer(all[i], x);
    }
  }
}
