/** The tag routes: listing every tag by name, creating a tag (admins only,
    one tag per normalised name), and the fifteen tags used by the most
    questions. */
module TagRoutes {
  import opened Common
  import opened Text
  import opened Sorting
  import opened Models
  import opened Store
  import opened QuestionRoutes

  // ---- GET /tags ----

  /** Ascending string order, character by character (code point order, as
      the store compares strings); a prefix comes first. */
  predicate NameLe(a: string, b: string)
    decreases |a|
  {
    a == [] || (b != [] && (a[0] < b[0] || (a[0] == b[0] && NameLe(a[1..], b[1..]))))
  }

  lemma {:induction false} NameLeTotal(a: string, b: string)
    ensures NameLe(a, b) || NameLe(b, a)
    decreases |a|
  {
    if a != [] && b != [] && a[0] == b[0] {
      NameLeTotal(a[1..], b[1..]);
    }
  }

  lemma {:induction false} NameLeTransitive(a: string, b: string, c: string)
    requires NameLe(a, b) && NameLe(b, c)
    ensures NameLe(a, c)
    decreases |a|
  {
    if a != [] && b != [] && c != [] && a[0] == b[0] && b[0] == c[0] {
      NameLeTransitive(a[1..], b[1..], c[1..]);
    }
  }

  /** "May come before" for `sort({ name: 1 })`. */
  predicate ByName(x: (Id, Tag), y: (Id, Tag))
  {
    NameLe(x.1.name, y.1.name)
  }

  lemma ByNameIsPreorder()
    ensures TotalPreorder(ByName)
  {
    forall x: (Id, Tag), y: (Id, Tag)
      ensures ByName(x, y) || ByName(y, x)
    {
      NameLeTotal(x.1.name, y.1.name);
    }
    forall x: (Id, Tag), y: (Id, Tag), z: (Id, Tag) | ByName(x, y) && ByName(y, z)
      ensures ByName(x, z)
    {
      NameLeTransitive(x.1.name, y.1.name, z.1.name);
    }
  }

  /** Every stored tag, each with its id, in ascending name order. */
  function ListTags(tags: map<Id, Tag>): (r: seq<(Id, Tag)>)
    ensures |r| == |tags|
    ensures SortedBy(r, ByName)
    ensures forall i :: 0 <= i < |r| ==> r[i].0 in tags && tags[r[i].0] == r[i].1
    ensures forall id :: id in tags ==> (id, tags[id]) in r
  {
    ByNameIsPreorder();
    var rows := Rows(tags);
    var r := Sort(rows, ByName);
    forall i | 0 <= i < |r|
      ensures r[i].0 in tags && tags[r[i].0] == r[i].1
    {
      assert r[i] in multiset(rows);
    }
    forall id | id in tags
      ensures (id, tags[id]) in r
    {
      RowsComplete(tags);
      assert (id, tags[id]) in multiset(r);
    }
    r
  }

  // ---- POST /tags ----

  /** Creates a tag. The guards run in order: a requester who is not an
      admin is 403 (before the name is looked at), a missing or empty name
      400, a name whose normal form (lower case, trimmed) a tag already has
      400. A name of white space only passes those guards and fails the
      schema's required rule (500). Otherwise one tag, named by the normal
      form, is stored under a fresh id. */
  method CreateTag(db: Db, me: Requester, name: Option<string>, now: nat) returns (status: nat, tagId: Option<Id>)
    requires db.Valid()
    modifies db
    ensures db.Valid()
    ensures me.role != Admin ==> status == 403
    ensures me.role == Admin && !Truthy(name) ==> status == 400
    ensures me.role == Admin && Truthy(name) && TagNamed(old(db.tags), Normalize(name.value)).Some? ==> status == 400
    ensures status != 201 ==> tagId == None && unchanged(db)
    ensures status == 201 <==>
      me.role == Admin && Truthy(name) && TagNamed(old(db.tags), Normalize(name.value)).None? && !IsBlank(name.value)
    ensures status == 403 || status == 400 || status == 201 || status == 500
    ensures status == 201 ==>
      var id := old(db.nextId);
      && tagId == Some(id) && id !in old(db.tags)
      && db.tags == old(db.tags)[id := NewTag(Normalize(name.value), now)]
      && db.tags[id].name == Normalize(name.value)
      && db.nextId == id + 1
      && db.users == old(db.users) && db.questions == old(db.questions) && db.answers == old(db.answers)
  {
    if me.role != Admin {
      return 403, None;
    }
    if !Truthy(name) {
      return 400, None;
    }
    var normal := Normalize(name.value);
    if TagNamed(db.tags, normal).Some? {
      return 400, None;
    }
    NormalizeShape(name.value);
    if normal == [] {
      return 500, None;
    }
    TrimTrimmed(normal);
    var id := AddTag(db, NewTag(normal, now));
    status, tagId := 201, Some(id);
  }

  /** Stores a new tag under a fresh id. */
  method AddTag(db: Db, tag: Tag) returns (id: Id)
    requires db.Valid() && ValidTag(tag)
    requires forall k :: k in db.tags ==> db.tags[k].name != tag.name
    modifies db
    ensures db.Valid()
    ensures id == old(db.nextId) && id !in old(db.tags) && db.nextId == id + 1
    ensures db.tags == old(db.tags)[id := tag]
    ensures db.users == old(db.users) && db.questions == old(db.questions) && db.answers == old(db.answers)
  {
    id := db.NewId();
    KeysBelowStore(db.tags, id, tag, id, db.nextId);
    KeysBelowGrow(db.questions, id, db.nextId);
    KeysBelowGrow(db.answers, id, db.nextId);
    KeysBelowGrow(db.users, id, db.nextId);
    AddTagKeepsValid(db.tags, id, tag);
    db.tags := db.tags[id := tag];
  }

  // ---- GET /tags/popular ----

  /** The most popular tags are at most this many. */
  const PopularLimit: nat := 15

  /** One row of the popular-tags answer: the tag, its name, and how often
      it is used. */
  datatype TagCount = TagCount(id: Id, name: string, count: nat)

  /** The number of (question, tag id) pairs: how many times the id occurs
      in the tag lists of all questions, repeats included (`$unwind` then
      `$group` with `$sum: 1`). */
  function Occurrences(questions: map<Id, Question>, id: Id): nat
    decreases |questions|
  {
    if |questions| == 0 then 0
    else
      var k := Min(questions.Keys);
      multiset(questions[k].tags)[id] + Occurrences(questions - {k}, id)
  }

  /** The ids that occur in some question's tag list. */
  function UsedIds(questions: map<Id, Question>): set<Id>
  {
    set q, t | q in questions && t in questions[q].tags :: t
  }

  /** An id is counted at least once exactly when some question uses it. */
  lemma {:induction false} OccurrencesPositive(questions: map<Id, Question>, id: Id)
    ensures Occurrences(questions, id) > 0 <==> id in UsedIds(questions)
    decreases |questions|
  {
    if |questions| > 0 {
      var k := Min(questions.Keys);
      var rest := questions - {k};
      OccurrencesPositive(rest, id);
      assert id in UsedIds(questions) <==> id in questions[k].tags || id in UsedIds(rest) by {
        if id in UsedIds(questions) {
          var q :| q in questions && id in questions[q].tags;
          if q != k {
            assert q in rest;
          }
        }
        if id in UsedIds(rest) {
          var q :| q in rest && id in rest[q].tags;
          assert q in questions;
        }
      }
    }
  }

  /** The row of a stored tag. */
  function Counted(questions: map<Id, Question>, tags: map<Id, Tag>, id: Id): TagCount
    requires id in tags
  {
    TagCount(id, tags[id].name, Occurrences(questions, id))
  }

  /** "May come before" for `$sort: { count: -1 }`. */
  predicate MoreUsed(a: TagCount, b: TagCount)
  {
    a.count >= b.count
  }

  lemma MoreUsedIsPreorder()
    ensures TotalPreorder(MoreUsed)
  {
  }

  /** The used ids that name a stored tag (`$lookup` then `$unwind` drops
      the others), in ascending id order. */
  function KnownUsedIds(questions: map<Id, Question>, tags: map<Id, Tag>): (ids: seq<Id>)
    ensures forall i :: 0 <= i < |ids| ==> ids[i] in tags && ids[i] in UsedIds(questions)
    ensures forall id :: id in tags && id in UsedIds(questions) ==> id in ids
    ensures forall i, j :: 0 <= i < j < |ids| ==> ids[i] != ids[j]
  {
    var used := Ascending(UsedIds(questions));
    var known := (id: Id) => id in tags;
    var ids := Filter(used, known);
    FilterIds(used, known);
    forall i | 0 <= i < |ids|
      ensures ids[i] in tags && ids[i] in UsedIds(questions)
    {
      assert known(ids[i]);
    }
    forall id | id in tags && id in UsedIds(questions)
      ensures id in ids
    {
      var j :| 0 <= j < |used| && used[j] == id;
      assert known(used[j]);
    }
    ids
  }

  /** The rows of the given stored tags, in the same order. */
  function CountedAll(questions: map<Id, Question>, tags: map<Id, Tag>, ids: seq<Id>): (r: seq<TagCount>)
    requires forall i :: 0 <= i < |ids| ==> ids[i] in tags
    ensures |r| == |ids|
    ensures forall i :: 0 <= i < |r| ==> r[i] == Counted(questions, tags, ids[i])
  {
    seq(|ids|, i requires 0 <= i < |ids| => Counted(questions, tags, ids[i]))
  }

  /** The tag a row counts. */
  function TagId(row: TagCount): Id
  {
    row.id
  }

  /** The rows of the used ids that name a stored tag, with their counts. */
  function Candidates(questions: map<Id, Question>, tags: map<Id, Tag>): (r: seq<TagCount>)
    ensures forall i :: 0 <= i < |r| ==> r[i].id in tags && r[i].id in UsedIds(questions) && r[i] == Counted(questions, tags, r[i].id)
    ensures forall id :: id in tags && id in UsedIds(questions) ==> Counted(questions, tags, id) in r
    ensures forall i, j :: 0 <= i < j < |r| ==> r[i].id != r[j].id
  {
    var ids := KnownUsedIds(questions, tags);
    var r := CountedAll(questions, tags, ids);
    forall id | id in tags && id in UsedIds(questions)
      ensures Counted(questions, tags, id) in r
    {
      var i :| 0 <= i < |ids| && ids[i] == id;
      assert r[i] == Counted(questions, tags, id);
    }
    r
  }

  /** The popular tags: the candidates by count, highest first, at most
      fifteen of them. */
  function PopularTags(questions: map<Id, Question>, tags: map<Id, Tag>): (r: seq<TagCount>)
    ensures |r| <= PopularLimit
    ensures SortedBy(r, MoreUsed)
    ensures forall i :: 0 <= i < |r| ==>
      && r[i].id in tags && r[i].name == tags[r[i].id].name
      && r[i].count == Occurrences(questions, r[i].id) && r[i].count > 0
    ensures forall i, j :: 0 <= i < j < |r| ==> r[i].id != r[j].id
  {
    MoreUsedIsPreorder();
    var c := Candidates(questions, tags);
    var sorted := Sort(c, MoreUsed);
    var r := Take(sorted, PopularLimit);
    SortedPrefix(sorted, MoreUsed, |r|);
    assert DistinctBy(c, TagId);
    PermutationKeepsDistinct(sorted, c, TagId);
    DistinctPrefix(sorted, TagId, |r|);
    assert DistinctBy(r, TagId);
    forall i | 0 <= i < |r|
      ensures r[i] in c
    {
      assert r[i] == sorted[i];
      assert sorted[i] in multiset(c);
    }
    PopularRows(questions, tags, r);
    r
  }

  /** A row taken from the candidates names a stored tag, with its name and
      a positive count. */
  lemma PopularRows(questions: map<Id, Question>, tags: map<Id, Tag>, rows: seq<TagCount>)
    requires forall i :: 0 <= i < |rows| ==> rows[i] in Candidates(questions, tags)
    ensures forall i :: 0 <= i < |rows| ==>
      && rows[i].id in tags && rows[i].name == tags[rows[i].id].name
      && rows[i].count == Occurrences(questions, rows[i].id) && rows[i].count > 0
  {
    var c := Candidates(questions, tags);
    forall i | 0 <= i < |rows|
      ensures rows[i].id in tags && rows[i].name == tags[rows[i].id].name
      ensures rows[i].count == Occurrences(questions, rows[i].id) && rows[i].count > 0
    {
      assert rows[i] in c;
      OccurrencesPositive(questions, rows[i].id);
    }
  }

  /** Nothing more used is left out: a stored tag that some question uses
      but that is not listed means the list is full and every listed tag is
      used at least as often. */
  lemma PopularIsTop(questions: map<Id, Question>, tags: map<Id, Tag>, id: Id)
    requires id in tags && Occurrences(questions, id) > 0
    requires forall e :: e in PopularTags(questions, tags) ==> e.id != id
    ensures |PopularTags(questions, tags)| == PopularLimit
    ensures forall e :: e in PopularTags(questions, tags) ==> e.count >= Occurrences(questions, id)
  {
    MoreUsedIsPreorder();
    OccurrencesPositive(questions, id);
    var c := Candidates(questions, tags);
    var sorted := Sort(c, MoreUsed);
    var x := Counted(questions, tags, id);
    assert x in c;
    assert x in multiset(sorted);
    var r := PopularTags(questions, tags);
    assert r == Take(sorted, PopularLimit);
    PrefixIsTop(sorted, MoreUsed, PopularLimit, x);
  }
}
