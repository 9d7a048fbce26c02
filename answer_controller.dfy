/** Deleting an answer: only its author may, and the question that lists
    it is not touched. */
module AnswerController {
  import opened Common
  import opened Models
  import opened Store

  /** Deletes an answer. An absent answer is 404 and a requester who is not
      its author 403, both with nothing changed. Otherwise exactly that
      answer is removed; the questions are untouched, so the parent keeps
      the id in its answer list and as its accepted answer. */
  method DeleteAnswer(db: Db, me: Requester, id: Id) returns (status: nat)
    requires db.Valid()
    modifies db
    ensures db.Valid()
    ensures status == 404 <==> id !in old(db.answers)
    ensures status == 403 <==> id in old(db.answers) && old(db.answers)[id].author != me.id
    ensures status == 200 <==> id in old(db.answers) && old(db.answers)[id].author == me.id
    ensures status != 200 ==> unchanged(db)
    ensures status == 200 ==>
      && db.answers == old(db.answers) - {id}
      && db.questions == old(db.questions) && db.users == old(db.users) && db.tags == old(db.tags)
      && db.nextId == old(db.nextId)
  {
    if id !in db.answers {
      return 404;
    }
    if db.answers[id].author != me.id {
      return 403;
    }
    db.answers := db.answers - {id};
    status := 200;
  }
}
