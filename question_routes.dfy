/** The question routes: creating a question (with get-or-create of its
    tags by normalised name), the paginated list with its search, unanswered
    and tag filters, fetching one question, and accepting an answer. */
module QuestionRoutes {
  import opened Common
  import opened Text
  import opened Sorting
  import opened Models
  import opened Store

  // ---- POST /questions: tag get-or-create ----

  /** The tag store, the next free id and the tag ids collected so far by
      the get-or-create loop; ok is false once a tag could not be created. */
  datatype Resolution = Resolution(tags: map<Id, Tag>, nextId: nat, ids: seq<Id>, ok: bool)

  /** The id of the tag whose name is exactly name (`Tag.findOne({ name })`). */
  function TagNamed(tags: map<Id, Tag>, name: string): (r: Option<Id>)
    ensures r.Some? ==> r.value in tags && tags[r.value].name == name
    ensures r.None? ==> forall t :: t in tags ==> tags[t].name != name
  {
    FindFirst(tags, (t: Tag) => t.name == name)
  }

  /** One step of the loop: reuse the tag with the normalised name, or
      create it. `Tag.create` with an empty name fails the required rule. */
  function ResolveOne(r: Resolution, name: string, now: nat): Resolution
  {
    match TagNamed(r.tags, name)
    case Some(id) => r.(ids := r.ids + [id])
    case None =>
      if name == [] then r.(ok := false)
      else r.(tags := r.tags[r.nextId := NewTag(name, now)], nextId := r.nextId + 1, ids := r.ids + [r.nextId])
  }

  /** One step keeps the tags valid with unique names and every id below
      the next free one, keeps the existing tags, fails only on an empty
      name, and on success adds the id of the tag named name. */
  lemma ResolveOneSound(r: Resolution, name: string, now: nat)
    requires TagsValid(r.tags) && KeysBelow(r.tags, r.nextId) && IsTrimmed(name)
    ensures var r' := ResolveOne(r, name, now);
      && TagsValid(r'.tags) && KeysBelow(r'.tags, r'.nextId) && r'.nextId >= r.nextId
      && (forall t :: t in r.tags ==> t in r'.tags && r'.tags[t] == r.tags[t])
      && (r'.ok <==> r.ok && name != [])
      && (r'.ok ==> |r'.ids| == |r.ids| + 1 && r'.ids[..|r.ids|] == r.ids)
      && (r'.ok ==> r'.ids[|r.ids|] in r'.tags && r'.tags[r'.ids[|r.ids|]].name == name)
  {
    var r' := ResolveOne(r, name, now);
    match TagNamed(r.tags, name)
    case Some(id) =>
      assert r' == r.(ids := r.ids + [id]);
    case None =>
      if name != [] {
        TrimTrimmed(name);
        var t := NewTag(name, now);
        assert t.name == name;
        AddTagKeepsValid(r.tags, r.nextId, t);
        KeysBelowStore(r.tags, r.nextId, t, r.nextId, r.nextId + 1);
        assert r' == r.(tags := r.tags[r.nextId := t], nextId := r.nextId + 1, ids := r.ids + [r.nextId]);
      }
  }

  /** The normalised forms of the tag names of the request body. */
  function NormalizeAll(names: seq<string>): (r: seq<string>)
    ensures |r| == |names|
    ensures forall k :: 0 <= k < |r| ==> r[k] == Normalize(names[k])
  {
    seq(|names|, k requires 0 <= k < |names| => Normalize(names[k]))
  }

  /** Normalised names are trimmed, and empty exactly for blank inputs. */
  lemma NormalizeAllShape(names: seq<string>)
    ensures forall k :: 0 <= k < |names| ==> IsTrimmed(NormalizeAll(names)[k])
    ensures forall k :: 0 <= k < |names| ==> (NormalizeAll(names)[k] == [] <==> IsBlank(names[k]))
  {
    forall k | 0 <= k < |names|
      ensures IsTrimmed(NormalizeAll(names)[k])
      ensures NormalizeAll(names)[k] == [] <==> IsBlank(names[k])
    {
      NormalizeShape(names[k]);
    }
  }

  /** The state after the loop over the (normalised) tag names, in order; a
      failure stops the loop, keeping the tags created before it. */
  function ResolveTags(tags: map<Id, Tag>, nextId: nat, names: seq<string>, now: nat): (r: Resolution)
    ensures r.nextId >= nextId
    decreases |names|
  {
    if names == [] then Resolution(tags, nextId, [], true)
    else
      var prev := ResolveTags(tags, nextId, names[..|names| - 1], now);
      if !prev.ok then prev else ResolveOne(prev, names[|names| - 1], now)
  }

  /** The loop keeps the tags valid with unique names and every id below
      the next free one, and keeps every existing tag as it was. */
  lemma {:induction false} ResolveTagsValid(tags: map<Id, Tag>, nextId: nat, names: seq<string>, now: nat)
    requires TagsValid(tags) && KeysBelow(tags, nextId)
    requires forall k :: 0 <= k < |names| ==> IsTrimmed(names[k])
    ensures var r := ResolveTags(tags, nextId, names, now);
      && TagsValid(r.tags) && KeysBelow(r.tags, r.nextId)
      && (forall t :: t in tags ==> t in r.tags && r.tags[t] == tags[t])
    decreases |names|
  {
    if names != [] {
      var init := names[..|names| - 1];
      ResolveTagsValid(tags, nextId, init, now);
      var prev := ResolveTags(tags, nextId, init, now);
      if prev.ok {
        ResolveOneSound(prev, names[|names| - 1], now);
      }
    }
  }

  /** The loop fails exactly when some name is empty, and on success
      collects one id per name. */
  lemma {:induction false} ResolveTagsOk(tags: map<Id, Tag>, nextId: nat, names: seq<string>, now: nat)
    requires TagsValid(tags) && KeysBelow(tags, nextId)
    requires forall k :: 0 <= k < |names| ==> IsTrimmed(names[k])
    ensures var r := ResolveTags(tags, nextId, names, now);
      && (r.ok <==> forall k :: 0 <= k < |names| ==> names[k] != [])
      && (r.ok ==> |r.ids| == |names|)
    decreases |names|
  {
    if names != [] {
      var init := names[..|names| - 1];
      ResolveTagsOk(tags, nextId, init, now);
      ResolveTagsValid(tags, nextId, init, now);
      var prev := ResolveTags(tags, nextId, init, now);
      assert forall k :: 0 <= k < |init| ==> names[k] == init[k];
      if prev.ok {
        ResolveOneOk(prev, names[|names| - 1], now);
      } else {
        var k :| 0 <= k < |init| && init[k] == [];
        assert names[k] == init[k];
      }
    }
  }

  /** One step on a valid tag store fails exactly on an empty name, and on
      success adds one id. */
  lemma ResolveOneOk(r: Resolution, name: string, now: nat)
    requires TagsValid(r.tags)
    ensures ResolveOne(r, name, now).ok <==> r.ok && name != []
    ensures ResolveOne(r, name, now).ok ==> |ResolveOne(r, name, now).ids| == |r.ids| + 1
  {
  }

  /** On success the k-th id names the tag whose name is the k-th name. */
  lemma {:induction false} ResolveTagsIds(tags: map<Id, Tag>, nextId: nat, names: seq<string>, now: nat)
    requires TagsValid(tags) && KeysBelow(tags, nextId)
    requires forall k :: 0 <= k < |names| ==> IsTrimmed(names[k])
    ensures var r := ResolveTags(tags, nextId, names, now);
      r.ok ==> |r.ids| == |names| && forall k :: 0 <= k < |names| ==> r.ids[k] in r.tags && r.tags[r.ids[k]].name == names[k]
    decreases |names|
  {
    var r := ResolveTags(tags, nextId, names, now);
    if names != [] && r.ok {
      var init := names[..|names| - 1];
      ResolveTagsIds(tags, nextId, init, now);
      ResolveTagsValid(tags, nextId, init, now);
      var prev := ResolveTags(tags, nextId, init, now);
      ResolveOneSound(prev, names[|names| - 1], now);
      assert r == ResolveOne(prev, names[|names| - 1], now);
      forall k | 0 <= k < |init|
        ensures r.ids[k] in r.tags && r.tags[r.ids[k]].name == names[k]
      {
        var id := prev.ids[k];
        assert r.ids[k] == id && names[k] == init[k];
        assert id in prev.tags && prev.tags[id].name == init[k];
      }
      assert |prev.ids| == |init|;
      assert r.ids[|init|] in r.tags && r.tags[r.ids[|init|]].name == names[|init|];
    }
  }

  /** Names that normalise alike resolve to one tag: "React" and " react"
      get the same id. */
  lemma {:induction false} SameNameSameTag(tags: map<Id, Tag>, nextId: nat, names: seq<string>, now: nat, i: nat, j: nat)
    requires TagsValid(tags) && KeysBelow(tags, nextId)
    requires i < |names| && j < |names| && Normalize(names[i]) == Normalize(names[j])
    requires ResolveTags(tags, nextId, NormalizeAll(names), now).ok
    ensures var r := ResolveTags(tags, nextId, NormalizeAll(names), now);
      i < |r.ids| && j < |r.ids| && r.ids[i] == r.ids[j]
  {
    var normal := NormalizeAll(names);
    var r := ResolveTags(tags, nextId, normal, now);
    NormalizeAllShape(names);
    ResolveTagsValid(tags, nextId, normal, now);
    ResolveTagsIds(tags, nextId, normal, now);
    TagNameUnique(r.tags, r.ids[i], r.ids[j]);
  }

  /** Once the loop has failed, the rest of the names change nothing. */
  lemma {:induction false} ResolveTagsStuck(tags: map<Id, Tag>, nextId: nat, names: seq<string>, now: nat, j: nat)
    requires j <= |names| && !ResolveTags(tags, nextId, names[..j], now).ok
    ensures ResolveTags(tags, nextId, names, now) == ResolveTags(tags, nextId, names[..j], now)
    decreases |names|
  {
    if j < |names| {
      var init := names[..|names| - 1];
      assert init[..j] == names[..j];
      ResolveTagsStuck(tags, nextId, init, now, j);
    } else {
      assert names[..j] == names;
    }
  }

  /** The loop over the tag names of a request: it fails exactly when one
      of them is blank; on success the k-th id is that of the tag whose name
      is the lower-cased, trimmed k-th name, and no tag that existed before
      is changed. */
  lemma ResolveRequestTags(tags: map<Id, Tag>, nextId: nat, names: seq<string>, now: nat)
    requires TagsValid(tags) && KeysBelow(tags, nextId)
    ensures var r := ResolveTags(tags, nextId, NormalizeAll(names), now);
      && TagsValid(r.tags) && KeysBelow(r.tags, r.nextId)
      && (forall t :: t in tags ==> t in r.tags && r.tags[t] == tags[t])
      && (r.ok <==> forall k :: 0 <= k < |names| ==> !IsBlank(names[k]))
      && (r.ok ==> |r.ids| == |names|)
      && (r.ok ==> forall k :: 0 <= k < |names| ==> r.ids[k] in r.tags && r.tags[r.ids[k]].name == Normalize(names[k]))
  {
    NormalizeAllShape(names);
    ResolveTagsValid(tags, nextId, NormalizeAll(names), now);
    ResolveTagsOk(tags, nextId, NormalizeAll(names), now);
    ResolveTagsIds(tags, nextId, NormalizeAll(names), now);
  }

  /** One iteration: `Tag.findOne` by the normalised name, then
      `Tag.create` when it is absent. */
  method GetOrCreateTag(db: Db, name: string, now: nat, ghost ids: seq<Id>) returns (tag: Option<Id>)
    modifies db
    ensures var r := ResolveOne(Resolution(old(db.tags), old(db.nextId), ids, true), name, now);
      && (tag.Some? <==> r.ok)
      && (tag.Some? ==> r == Resolution(db.tags, db.nextId, ids + [tag.value], true))
      && (tag.None? ==> db.tags == old(db.tags) && db.nextId == old(db.nextId))
    ensures db.users == old(db.users) && db.questions == old(db.questions) && db.answers == old(db.answers)
  {
    tag := TagNamed(db.tags, name);
    if tag.None? && name != [] {
      var id := db.NewId();
      db.tags := db.tags[id := NewTag(name, now)];
      tag := Some(id);
    }
  }

  /** The loop's next step is one more application of ResolveOne. */
  lemma ResolveTagsSnoc(tags: map<Id, Tag>, nextId: nat, names: seq<string>, now: nat, i: nat)
    requires i < |names| && ResolveTags(tags, nextId, names[..i], now).ok
    ensures ResolveTags(tags, nextId, names[..i + 1], now) == ResolveOne(ResolveTags(tags, nextId, names[..i], now), names[i], now)
  {
    assert names[..i + 1][..i] == names[..i];
  }

  /** The get-or-create loop over the tag names, on the store. */
  method GetOrCreateTags(db: Db, names: seq<string>, now: nat) returns (ok: bool, ids: seq<Id>)
    modifies db
    ensures Resolution(db.tags, db.nextId, ids, ok) == ResolveTags(old(db.tags), old(db.nextId), NormalizeAll(names), now)
    ensures db.users == old(db.users) && db.questions == old(db.questions) && db.answers == old(db.answers)
  {
    ghost var normal := NormalizeAll(names);
    ok, ids := true, [];
    var i := 0;
    while i < |names|
      invariant 0 <= i <= |names|
      invariant Resolution(db.tags, db.nextId, ids, true) == ResolveTags(old(db.tags), old(db.nextId), normal[..i], now)
      invariant db.users == old(db.users) && db.questions == old(db.questions) && db.answers == old(db.answers)
    {
      ResolveTagsSnoc(old(db.tags), old(db.nextId), normal, now, i);
      var tag := GetOrCreateTag(db, Normalize(names[i]), now, ids);
      if tag.None? {
        ResolveTagsStuck(old(db.tags), old(db.nextId), normal, now, i + 1);
        return false, ids;
      }
      ids := ids + [tag.value];
      i := i + 1;
    }
    assert normal[..i] == normal;
  }

  /** Creates a question. A title or description that is missing or empty is
      400 before anything is stored. Then each tag name is normalised and
      resolved to an existing tag or a new one; a blank tag name fails (500)
      after the tags before it were created. A title or description of white
      space only fails the schema (500) after all tags were resolved. On
      success the question stores the trimmed title and description, the tag
      ids in input order and the requester as author. */
  method CreateQuestion(db: Db, me: Requester, title: Option<string>, description: Option<string>,
                        tagNames: seq<string>, now: nat)
    returns (status: nat, questionId: Option<Id>)
    requires db.Valid()
    modifies db
    ensures db.Valid()
    ensures !Truthy(title) || !Truthy(description) ==> status == 400 && unchanged(db)
    ensures Truthy(title) && Truthy(description) ==>
      var r := ResolveTags(old(db.tags), old(db.nextId), NormalizeAll(tagNames), now);
      && db.tags == r.tags
      && db.users == old(db.users) && db.answers == old(db.answers)
      && (status == 201 <==> r.ok && !IsBlank(title.value) && !IsBlank(description.value))
      && (status != 201 ==> status == 500 && questionId == None && db.questions == old(db.questions))
      && (status == 201 ==>
            && questionId == Some(r.nextId) && r.nextId !in old(db.questions)
            && db.questions == old(db.questions)[r.nextId := NewQuestion(title.value, description.value, r.ids, me.id, now)]
            && db.nextId == r.nextId + 1)
  {
    if !Truthy(title) || !Truthy(description) {
      return 400, None;
    }
    ghost var tags0, next0 := db.tags, db.nextId;
    ResolveRequestTags(tags0, next0, tagNames, now);
    var ok, ids := GetOrCreateTags(db, tagNames, now);
    KeysBelowGrow(db.users, next0, db.nextId);
    KeysBelowGrow(db.questions, next0, db.nextId);
    KeysBelowGrow(db.answers, next0, db.nextId);
    if !ok {
      return 500, None;
    }
    var question := NewQuestion(title.value, description.value, ids, me.id, now);
    if !ValidQuestion(question) {
      return 500, None;
    }
    var id := db.NewId();
    KeysBelowStore(db.questions, id, question, id, db.nextId);
    StoreQuestionKeepsValid(db.questions, id, question);
    KeysBelowGrow(db.users, id, db.nextId);
    KeysBelowGrow(db.answers, id, db.nextId);
    KeysBelowGrow(db.tags, id, db.nextId);
    db.questions := db.questions[id := question];
    status, questionId := 201, Some(id);
  }

  // ---- GET /questions ----

  /** The query string of the list request; absent parameters are None. */
  datatype Query = Query(page: Option<string>, limit: Option<string>, filter: Option<string>,
                         search: Option<string>, tag: Option<string>)

  datatype Pagination = Pagination(currentPage: int, totalPages: int, totalQuestions: nat,
                                   hasNextPage: bool, hasPrevPage: bool)

  /** The list response: the status, the page of questions (with their ids)
      and the pagination metadata. */
  datatype ListResponse = ListResponse(status: nat, questions: seq<(Id, Question)>, pagination: Pagination)

  /** `parseInt(s) || default`: an absent, unparsable or zero value gives
      the default. */
  function IntOr(s: Option<string>, default: int): (r: int)
    requires default != 0
    ensures r != 0
    ensures s.None? || ParseInt(s.value).None? ==> r == default
    ensures s.Some? && ParseInt(s.value).Some? && ParseInt(s.value).value != 0 ==> r == ParseInt(s.value).value
  {
    if s.None? then default
    else match ParseInt(s.value)
      case None => default
      case Some(v) => if v == 0 then default else v
  }

  function PageOf(q: Query): int { IntOr(q.page, 1) }
  function LimitOf(q: Query): int { IntOr(q.limit, 10) }

  /** `Math.ceil(total / limit)`. */
  function CeilDiv(total: nat, limit: nat): (r: nat)
    requires limit > 0
    ensures r * limit >= total
    ensures r > 0 ==> (r - 1) * limit < total
  {
    if total == 0 then 0 else 1 + CeilDiv(if total <= limit then 0 else total - limit, limit)
  }

  /** page < ceil(total / limit) exactly when page * limit < total. */
  lemma CeilDivBelow(total: nat, limit: nat, page: int)
    requires limit > 0
    ensures page < CeilDiv(total, limit) <==> page * limit < total
  {
    var r: int := CeilDiv(total, limit);
    if page < r {
      MulMonotone(page, r - 1, limit);
    } else {
      MulMonotone(r, page, limit);
    }
  }

  /** `Math.ceil(total / limit)` for a limit of either sign: the least
      integer at least total / limit. A negative limit gives a count of
      zero or less. */
  function PageCount(total: nat, limit: int): (r: int)
    requires limit != 0
    ensures limit > 0 ==> r * limit >= total && (r - 1) * limit < total
    ensures limit < 0 ==> r * limit <= total && (r - 1) * limit > total && r <= 0
  {
    if limit > 0 then CeilDiv(total, limit)
    else
      var n := -limit;
      DivBounds(total, n);
      var k := total / n;
      assert (-k) * limit == k * n;
      assert (-k - 1) * limit == k * n + n;
      -k
  }

  /** page < ceil(total / limit) exactly when page lies below total / limit. */
  lemma PageCountBelow(total: nat, limit: int, page: int)
    requires limit != 0
    ensures limit > 0 ==> (page < PageCount(total, limit) <==> page * limit < total)
    ensures limit < 0 ==> (page < PageCount(total, limit) <==> page * limit > total)
  {
    var r := PageCount(total, limit);
    if limit > 0 {
      CeilDivBelow(total, limit, page);
    } else if page < r {
      MulMonotone(page, r - 1, -limit);
    } else {
      MulMonotone(r, page, -limit);
    }
  }

  /** The number of questions before page `page`: `(page - 1) * limit`,
      negative when exactly one of page - 1 and limit is. */
  function Offset(page: int, limit: int): (skip: int)
    ensures skip < 0 <==> (page > 1 && limit < 0) || (page < 1 && limit > 0)
  {
    if page >= 1 && limit >= 0 then
      MulNonNegative(page - 1, limit);
      (page - 1) * limit
    else if page <= 1 && limit <= 0 then
      MulNonNegative(1 - page, -limit);
      (page - 1) * limit
    else if page > 1 then
      MulMonotone(1, -limit, page - 1);
      (page - 1) * limit
    else
      MulMonotone(1, 1 - page, limit);
      (page - 1) * limit
  }


  /** How many questions `.limit(limit)` returns at most: the driver reads
      a negative limit as a single batch of that many. */
  function BatchSize(limit: int): (n: nat)
    ensures n == limit || n == -limit
  {
    if limit < 0 then -limit else limit
  }

  /** The page, numbered from 1, that holds position k of a listing with
      limit items per page. */
  function PageAt(k: nat, limit: nat): (page: nat)
    requires limit >= 1
    ensures page >= 1 && Offset(page, limit) <= k < Offset(page, limit) + limit
  {
    DivBounds(k, limit);
    k / limit + 1
  }

  /** The filters of the query: the title contains the search text (ignoring
      ASCII case), the answers list is empty when filter is "unanswered",
      and the question carries the tag when one is selected. */
  predicate Matches(question: Question, search: string, unanswered: bool, tag: Option<Id>)
  {
    && (search == [] || ContainsIgnoreCase(question.title, search))
    && (!unanswered || question.answers == [])
    && (tag.None? || tag.value in question.tags)
  }

  function SearchOf(q: Query): string
  {
    if Truthy(q.search) then q.search.value else []
  }

  /** A tag parameter was given but names no stored tag. */
  predicate TagMissing(q: Query, tags: map<Id, Tag>)
  {
    Truthy(q.tag) && TagNamed(tags, Normalize(q.tag.value)).None?
  }

  /** The id of the tag to filter by, when a tag parameter names one. */
  function TagFilter(q: Query, tags: map<Id, Tag>): Option<Id>
  {
    if Truthy(q.tag) then TagNamed(tags, Normalize(q.tag.value)) else None
  }

  /** The filter the query selects questions by. */
  function Selector(q: Query, tags: map<Id, Tag>): Question -> bool
  {
    question => Matches(question, SearchOf(q), q.filter == Some("unanswered"), TagFilter(q, tags))
  }

  /** "May come before" for the newest-first order: createdAt descending. */
  predicate NewerOrSame(a: (Id, Question), b: (Id, Question))
  {
    a.1.createdAt >= b.1.createdAt
  }

  lemma NewerOrSameIsPreorder()
    ensures TotalPreorder(NewerOrSame)
  {
  }

  /** The stored questions that keep selects, newest first, each with its
      own id. */
  function NewestFirst(questions: map<Id, Question>, keep: Question -> bool): (r: seq<(Id, Question)>)
    ensures SortedBy(r, NewerOrSame)
    ensures forall i :: 0 <= i < |r| ==> r[i].0 in questions && questions[r[i].0] == r[i].1 && keep(r[i].1)
    ensures forall i, j :: 0 <= i < j < |r| ==> r[i].0 != r[j].0
  {
    NewerOrSameIsPreorder();
    var sorted := Sort(Filter(Rows(questions), RowFilter(keep)), NewerOrSame);
    ChosenSound(questions, keep, sorted);
    ChosenDistinct(questions, keep, sorted);
    sorted
  }

  /** The selection holds as many questions as the store has questions that
      keep selects (`countDocuments` of the same query). */
  lemma NewestFirstCount(questions: map<Id, Question>, keep: Question -> bool)
    ensures |NewestFirst(questions, keep)| == |SelectedIds(questions, keep)|
  {
    NewerOrSameIsPreorder();
    var sorted := Sort(Filter(Rows(questions), RowFilter(keep)), NewerOrSame);
    assert NewestFirst(questions, keep) == sorted;
    ChosenCount(questions, keep, sorted);
  }

  /** Every stored question that keep selects is in the selection. */
  lemma NewestFirstComplete(questions: map<Id, Question>, keep: Question -> bool, id: Id)
    requires id in questions && keep(questions[id])
    ensures (id, questions[id]) in NewestFirst(questions, keep)
  {
    NewerOrSameIsPreorder();
    ChosenComplete(questions, keep, Sort(Filter(Rows(questions), RowFilter(keep)), NewerOrSame));
  }

  /** The pagination metadata of page `page` of `total` questions:
      totalPages is `Math.ceil(total / limit)`, for a positive limit the
      least number of pages of limit questions that hold them all, for a
      negative one zero or less; there is a next page exactly when page
      lies below total / limit (for a positive limit: the questions reach
      past this page); there is a previous page exactly when this is not
      the first page. */
  function PaginationOf(page: int, limit: int, total: nat): (p: Pagination)
    requires limit != 0
    ensures p.currentPage == page && p.totalQuestions == total
    ensures limit > 0 ==> p.totalPages * limit >= total && (p.totalPages - 1) * limit < total
    ensures limit < 0 ==> p.totalPages * limit <= total && (p.totalPages - 1) * limit > total && p.totalPages <= 0
    ensures limit > 0 ==> (p.hasNextPage <==> page * limit < total)
    ensures limit < 0 ==> (p.hasNextPage <==> page * limit > total)
    ensures p.hasPrevPage <==> page > 1
  {
    var totalPages := PageCount(total, limit);
    PageCountBelow(total, limit, page);
    Pagination(page, totalPages, total, page < totalPages, page > 1)
  }

  /** The list handler. A tag parameter that names no tag answers at once
      with an empty page (status 200) whatever the page. Otherwise a
      negative skip (page - 1) * limit, which the store rejects, makes the
      query fail (500). Otherwise the page holds the selected questions,
      newest first, after skipping that many of them, at most |limit| many,
      with the pagination metadata of the whole selection. */
  function ListQuestions(questions: map<Id, Question>, tags: map<Id, Tag>, q: Query): (r: ListResponse)
    ensures r.status == 200 || r.status == 500
    ensures r.status == 500 <==> !TagMissing(q, tags) && Offset(PageOf(q), LimitOf(q)) < 0
    ensures TagMissing(q, tags) ==> r == ListResponse(200, [], Pagination(PageOf(q), 0, 0, false, false))
    ensures r.status == 200 ==> r.pagination.currentPage == PageOf(q)
    ensures r.status == 200 && !TagMissing(q, tags) ==>
      var all := NewestFirst(questions, Selector(q, tags));
      && r.pagination == PaginationOf(PageOf(q), LimitOf(q), |all|)
      && r.questions == Window(all, Offset(PageOf(q), LimitOf(q)), BatchSize(LimitOf(q)))
  {
    var page, limit := PageOf(q), LimitOf(q);
    if TagMissing(q, tags) then ListResponse(200, [], Pagination(page, 0, 0, false, false))
    else if Offset(page, limit) < 0 then ListResponse(500, [], Pagination(page, 0, 0, false, false))
    else
      var all := NewestFirst(questions, Selector(q, tags));
      ListResponse(200, Window(all, Offset(page, limit), BatchSize(limit)), PaginationOf(page, limit, |all|))
  }

  /** totalQuestions is the number of stored questions that pass the
      filters. */
  lemma ListedTotalIsCount(questions: map<Id, Question>, tags: map<Id, Tag>, q: Query)
    ensures var r := ListQuestions(questions, tags, q);
      r.status == 200 && !TagMissing(q, tags) ==>
        r.pagination.totalQuestions
          == |set id | id in questions && Matches(questions[id], SearchOf(q), q.filter == Some("unanswered"), TagFilter(q, tags))|
  {
    var r := ListQuestions(questions, tags, q);
    if r.status == 200 && !TagMissing(q, tags) {
      var keep := Selector(q, tags);
      NewestFirstCount(questions, keep);
      var matching := set id | id in questions && Matches(questions[id], SearchOf(q), q.filter == Some("unanswered"), TagFilter(q, tags));
      assert forall id :: id in SelectedIds(questions, keep) <==> id in matching;
      assert SelectedIds(questions, keep) == matching;
    }
  }

  /** A page holds at most limit questions, newest first. */
  lemma ListedNewestFirst(questions: map<Id, Question>, tags: map<Id, Tag>, q: Query)
    ensures var r := ListQuestions(questions, tags, q);
      && (r.status == 200 && !TagMissing(q, tags) ==> |r.questions| <= BatchSize(LimitOf(q)))
      && SortedBy(r.questions, NewerOrSame)
  {
    var r := ListQuestions(questions, tags, q);
    if r.status == 200 && !TagMissing(q, tags) {
      var all := NewestFirst(questions, Selector(q, tags));
      WindowSorted(all, Offset(PageOf(q), LimitOf(q)), BatchSize(LimitOf(q)), NewerOrSame);
    }
  }

  /** Every listed question is a stored question, under its own id, that
      passes the filters. */
  lemma ListedAreSelected(questions: map<Id, Question>, tags: map<Id, Tag>, q: Query)
    ensures var r := ListQuestions(questions, tags, q);
      forall i :: 0 <= i < |r.questions| ==>
        && r.questions[i].0 in questions && questions[r.questions[i].0] == r.questions[i].1
        && Matches(r.questions[i].1, SearchOf(q), q.filter == Some("unanswered"), TagFilter(q, tags))
  {
    var r := ListQuestions(questions, tags, q);
    if r.status == 200 && !TagMissing(q, tags) {
      var all := NewestFirst(questions, Selector(q, tags));
      var page: seq<(Id, Question)> := r.questions;
      assert forall x :: x in page ==> x in all;
      forall i | 0 <= i < |page|
        ensures && page[i].0 in questions && questions[page[i].0] == page[i].1
                && Matches(page[i].1, SearchOf(q), q.filter == Some("unanswered"), TagFilter(q, tags))
      {
        SelectedMatches(questions, tags, q, page[i]);
      }
    }
  }

  /** A selected question is stored under its id and passes the filters. */
  lemma SelectedMatches(questions: map<Id, Question>, tags: map<Id, Tag>, q: Query, x: (Id, Question))
    requires x in NewestFirst(questions, Selector(q, tags))
    ensures x.0 in questions && questions[x.0] == x.1
    ensures Matches(x.1, SearchOf(q), q.filter == Some("unanswered"), TagFilter(q, tags))
  {
    var all := NewestFirst(questions, Selector(q, tags));
    var j :| 0 <= j < |all| && all[j] == x;
    assert Selector(q, tags)(all[j].1);
  }


  /** A window of a sorted sequence is sorted. */
  lemma WindowSorted<T>(s: seq<T>, skip: nat, limit: nat, le: (T, T) -> bool)
    requires SortedBy(s, le)
    ensures SortedBy(Window(s, skip, limit), le)
  {
    var w := Window(s, skip, limit);
    if skip <= |s| {
      forall i, j | 0 <= i < j < |w|
        ensures le(w[i], w[j])
      {
        assert w[i] == s[skip + i] && w[j] == s[skip + j];
      }
    }
  }

  /** Every stored question that passes the filters is listed on some page. */
  lemma SelectedIsListed(questions: map<Id, Question>, tags: map<Id, Tag>, q: Query, id: Id)
    requires !TagMissing(q, tags) && LimitOf(q) >= 1
    requires id in questions
    requires Matches(questions[id], SearchOf(q), q.filter == Some("unanswered"), TagFilter(q, tags))
    ensures exists page: nat :: (page >= 1 &&
      (id, questions[id]) in ListQuestions(questions, tags, q.(page := Some(NatToString(page)))).questions)
  {
    var all := NewestFirst(questions, Selector(q, tags));
    assert Selector(q, tags)(questions[id]);
    NewestFirstComplete(questions, Selector(q, tags), id);
    var k: nat :| k < |all| && all[k] == (id, questions[id]);
    PositionListed(questions, tags, q, k);
  }

  /** The question at position k of the newest-first selection is on page
      k / limit + 1. */
  lemma PositionListed(questions: map<Id, Question>, tags: map<Id, Tag>, q: Query, k: nat)
    requires !TagMissing(q, tags) && LimitOf(q) >= 1
    requires k < |NewestFirst(questions, Selector(q, tags))|
    ensures var page := PageAt(k, LimitOf(q));
      NewestFirst(questions, Selector(q, tags))[k]
        in ListQuestions(questions, tags, q.(page := Some(NatToString(page)))).questions
  {
    var all := NewestFirst(questions, Selector(q, tags));
    var limit: nat := LimitOf(q);
    var page := PageAt(k, limit);
    var q' := q.(page := Some(NatToString(page)));
    PageWritten(q, page);
    assert Selector(q', tags) == Selector(q, tags);
    assert !TagMissing(q', tags);
    ListedWindow(questions, tags, q');
  }

  /** For a page and a limit of at least 1, the page is the window of the
      selection that starts at the page's offset. */
  lemma ListedWindow(questions: map<Id, Question>, tags: map<Id, Tag>, q: Query)
    requires !TagMissing(q, tags) && PageOf(q) >= 1 && LimitOf(q) >= 1
    ensures ListQuestions(questions, tags, q).questions
      == Window(NewestFirst(questions, Selector(q, tags)), Offset(PageOf(q), LimitOf(q)), LimitOf(q))
  {
  }

  /** Writing a page number into the query changes the page read from it
      and nothing else. */
  lemma PageWritten(q: Query, page: nat)
    requires page >= 1
    ensures var q' := q.(page := Some(NatToString(page)));
      PageOf(q') == page && LimitOf(q') == LimitOf(q)
  {
    ParseIntNatToString(page);
  }

  // ---- GET /questions/:id ----

  datatype GetResponse = GetResponse(status: nat, question: Option<Question>)

  /** Fetches one question: 404 when the id is absent. */
  function GetQuestion(questions: map<Id, Question>, id: Id): (r: GetResponse)
    ensures r.status == 404 <==> id !in questions
    ensures r.status == 404 ==> r.question == None
    ensures r.status != 404 ==> r.status == 200 && r.question == Some(questions[id])
  {
    if id in questions then GetResponse(200, Some(questions[id])) else GetResponse(404, None)
  }

  // ---- PUT /questions/:id/accept/:answerId ----

  /** Accepts an answer. The guards run in order: an absent question 404,
      a requester who is not the question's author 403, an absent answer
      404, an answer of another question 400. Only then is the question's
      acceptedAnswer set; no answer record changes. */
  method AcceptAnswer(db: Db, questionId: Id, answerId: Id, me: Requester, now: nat) returns (status: nat)
    requires db.Valid()
    modifies db
    ensures db.Valid()
    ensures db.answers == old(db.answers) && db.users == old(db.users) && db.tags == old(db.tags)
    ensures db.nextId == old(db.nextId)
    ensures questionId !in old(db.questions) ==> status == 404
    ensures questionId in old(db.questions) && old(db.questions)[questionId].author != me.id ==> status == 403
    ensures (questionId in old(db.questions) && old(db.questions)[questionId].author == me.id
             && answerId !in db.answers) ==> status == 404
    ensures (questionId in old(db.questions) && old(db.questions)[questionId].author == me.id
             && answerId in db.answers && db.answers[answerId].question != questionId) ==> status == 400
    ensures status != 200 ==> db.questions == old(db.questions)
    ensures status == 200 <==>
      && questionId in old(db.questions) && old(db.questions)[questionId].author == me.id
      && answerId in db.answers && db.answers[answerId].question == questionId
    ensures status == 200 ==>
      var q := old(db.questions)[questionId];
      && db.questions == old(db.questions)[questionId := q.(acceptedAnswer := Some(answerId), updatedAt := now)]
      && db.answers[db.questions[questionId].acceptedAnswer.value].question == questionId
  {
    if questionId !in db.questions {
      return 404;
    }
    var question := db.questions[questionId];
    if question.author != me.id {
      return 403;
    }
    if answerId !in db.answers {
      return 404;
    }
    if db.answers[answerId].question != questionId {
      return 400;
    }
    question := question.(acceptedAnswer := Some(answerId), updatedAt := now);
    KeysBelowStore(db.questions, questionId, question, db.nextId, db.nextId);
    StoreQuestionKeepsValid(db.questions, questionId, question);
    db.questions := db.questions[questionId := question];
    status := 200;
  }
}
