/** Deleting a question: only its author may, and nothing else is removed
    with it. */
module QuestionController {
  import opened Common
  import opened Models
  import opened Store

  /** Deletes a question. An absent question is 404 and a requester who is
      not its author 403, both with nothing changed. Otherwise exactly that
      question is removed; its answers, the tags and the users stay as they
      were (there is no cascade). */
  method DeleteQuestion(db: Db, me: Requester, id: Id) returns (status: nat)
    requires db.Valid()
    modifies db
    ensures db.Valid()
    ensures status == 404 <==> id !in old(db.questions)
    ensures status == 403 <==> id in old(db.questions) && old(db.questions)[id].author != me.id
    ensures status == 200 <==> id in old(db.questions) && old(db.questions)[id].author == me.id
    ensures status != 200 ==> unchanged(db)
    ensures status == 200 ==>
      && db.questions == old(db.questions) - {id}
      && db.answers == old(db.answers) && db.users == old(db.users) && db.tags == old(db.tags)
      && db.nextId == old(db.nextId)
  {
    if id !in db.questions {
      return 404;
    }
    if db.questions[id].author != me.id {
      return 403;
    }
    db.questions := db.questions - {id};
    status := 200;
  }
}
