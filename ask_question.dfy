/** The ask-question form of the front end: the comma-separated tag field
    turned into the tag list of the request, and the checks made before the
    question is sent. */
module AskQuestion {
  import opened Common
  import opened Text
  import opened Models
  import opened Store
  import opened QuestionRoutes

  /** The form sends at most five tags. */
  const MaxTags: nat := 5

  /** The value the rich-text editor holds when it is empty. */
  const EmptyEditor: string := "<p><br></p>"

  /** `.map((tag) => tag.trim())`. */
  function TrimAll(parts: seq<string>): (r: seq<string>)
    ensures |r| == |parts| && forall i :: 0 <= i < |parts| ==> r[i] == Trim(parts[i])
  {
    seq(|parts|, i requires 0 <= i < |parts| => Trim(parts[i]))
  }

  /** `.filter((tag) => tag.length > 0)`. */
  function NonEmpty(parts: seq<string>): seq<string>
  {
    Filter(parts, (t: string) => |t| > 0)
  }

  /** The trimmed pieces of the tag field between commas that are not
      empty, in order. */
  function Pieces(s: string): seq<string>
  {
    NonEmpty(TrimAll(Split(s, ',')))
  }

  /** `processTags`: nothing for a blank field; otherwise the first five
      non-empty trimmed pieces between commas. */
  function ProcessTags(s: string): (r: seq<string>)
    ensures |r| <= MaxTags
    ensures forall i :: 0 <= i < |r| ==> r[i] != [] && IsTrimmed(r[i]) && ',' !in r[i]
  {
    if Trim(s) == [] then []
    else
      var r := Take(Pieces(s), MaxTags);
      forall i | 0 <= i < |r|
        ensures r[i] != [] && IsTrimmed(r[i]) && ',' !in r[i]
      {
        PieceShape(s, r[i]);
      }
      r
  }

  /** A piece is non-empty, trimmed and free of commas. */
  lemma PieceShape(s: string, t: string)
    requires t in Pieces(s)
    ensures t != [] && IsTrimmed(t) && ',' !in t
  {
    var parts := Split(s, ',');
    var trimmed := TrimAll(parts);
    var keep := (t: string) => |t| > 0;
    var j :| 0 <= j < |Pieces(s)| && Pieces(s)[j] == t;
    assert t in trimmed && keep(t);
    var k :| 0 <= k < |trimmed| && trimmed[k] == t;
    if ',' in t {
      TrimChars(parts[k], ',');
    }
  }

  /** The blank-field guard changes nothing: a blank field has no non-empty
      piece either. */
  lemma BlankHasNoPieces(s: string)
    requires IsBlank(s)
    ensures Pieces(s) == []
  {
    var parts := Split(s, ',');
    SplitBlank(s, ',');
    var trimmed := TrimAll(parts);
    var keep := (t: string) => |t| > 0;
    forall i | 0 <= i < |trimmed|
      ensures !keep(trimmed[i])
    {
      assert IsBlank(parts[i]);
    }
    FilterNone(trimmed, keep);
  }

  /** The tags keep the order of the field: they are the trimmed pieces
      between commas with some left out. */
  lemma ProcessTagsInOrder(s: string)
    ensures IsSubsequence(ProcessTags(s), TrimAll(Split(s, ',')))
  {
    var trimmed := TrimAll(Split(s, ','));
    if Trim(s) != [] {
      FilterIsSubsequence(trimmed, (t: string) => |t| > 0);
      SubsequencePrefix(Pieces(s), trimmed, |ProcessTags(s)|);
    }
  }

  /** Only the limit drops a tag: a non-blank piece of the field that is not
      among the tags means five tags were kept. */
  lemma ProcessTagsDropsOnlyPastLimit(s: string, i: nat)
    requires i < |Split(s, ',')| && !IsBlank(Split(s, ',')[i])
    requires Trim(Split(s, ',')[i]) !in ProcessTags(s)
    ensures |ProcessTags(s)| == MaxTags
  {
    var trimmed := TrimAll(Split(s, ','));
    var keep := (t: string) => |t| > 0;
    assert keep(trimmed[i]);
    assert trimmed[i] in Pieces(s);
    if Trim(s) == [] {
      BlankHasNoPieces(s);
    }
  }

  /** Tags typed as a comma-separated list come back as typed: non-empty,
      trimmed tags without commas, at most five, joined with commas. */
  lemma ProcessTagsRoundTrip(tags: seq<string>)
    requires 1 <= |tags| <= MaxTags
    requires forall i :: 0 <= i < |tags| ==> tags[i] != [] && IsTrimmed(tags[i]) && ',' !in tags[i]
    ensures ProcessTags(Join(tags, ',')) == tags
  {
    var s := Join(tags, ',');
    SplitJoin(tags, ',');
    var trimmed := TrimAll(tags);
    forall i | 0 <= i < |tags|
      ensures trimmed[i] == tags[i]
    {
      TrimTrimmed(tags[i]);
    }
    assert trimmed == tags;
    var keep := (t: string) => |t| > 0;
    forall i | 0 <= i < |tags|
      ensures keep(tags[i])
    {
    }
    FilterAll(tags, keep);
    JoinStartsWith(tags, ',');
    assert !IsSpace(s[0]);
    assert Trim(s) != [];
  }

  /** A join starts with the first piece. */
  lemma JoinStartsWith(parts: seq<string>, sep: char)
    requires |parts| >= 1 && parts[0] != []
    ensures |Join(parts, sep)| > 0 && Join(parts, sep)[0] == parts[0][0]
  {
  }

  /** The JSON body of the request. */
  datatype QuestionBody = QuestionBody(title: string, description: string, tags: seq<string>)

  datatype SubmitOutcome = Rejected(message: string) | Sent(body: QuestionBody)

  /** `onSubmit` up to the request: a blank title is refused first, then a
      blank description or the empty editor value, then a visitor without a
      stored token; otherwise the body holds the trimmed title and
      description and the processed tags. */
  function Submit(title: string, description: string, tagField: string, signedIn: bool): (r: SubmitOutcome)
    ensures r == Rejected("Please enter a title") <==> IsBlank(title)
    ensures r == Rejected("Please enter a description") <==>
      !IsBlank(title) && (IsBlank(description) || description == EmptyEditor)
    ensures r == Rejected("Please login to ask a question") <==>
      !IsBlank(title) && !IsBlank(description) && description != EmptyEditor && !signedIn
    ensures r.Rejected? || r == Sent(QuestionBody(Trim(title), Trim(description), ProcessTags(tagField)))
  {
    if Trim(title) == [] then Rejected("Please enter a title")
    else if Trim(description) == [] || description == EmptyEditor then Rejected("Please enter a description")
    else if !signedIn then Rejected("Please login to ask a question")
    else Sent(QuestionBody(Trim(title), Trim(description), ProcessTags(tagField)))
  }

  /** A body the form sends passes every check of the create handler: title
      and description are present, non-empty and not blank, and every tag
      resolves, so the question is created with the title and description
      as typed, trimmed. */
  lemma SentQuestionIsCreated(title: string, description: string, tagField: string, signedIn: bool,
                              tags: map<Id, Tag>, nextId: nat, author: Id, now: nat)
    requires Submit(title, description, tagField, signedIn).Sent?
    requires TagsValid(tags) && KeysBelow(tags, nextId)
    ensures var b := Submit(title, description, tagField, signedIn).body;
      var r := ResolveTags(tags, nextId, NormalizeAll(b.tags), now);
      && Truthy(Some(b.title)) && Truthy(Some(b.description))
      && !IsBlank(b.title) && !IsBlank(b.description)
      && r.ok
      && NewQuestion(b.title, b.description, r.ids, author, now).title == Trim(title)
      && NewQuestion(b.title, b.description, r.ids, author, now).description == Trim(description)
  {
    var b := Submit(title, description, tagField, signedIn).body;
    ResolveRequestTags(tags, nextId, b.tags, now);
    forall k | 0 <= k < |b.tags|
      ensures !IsBlank(b.tags[k])
    {
      assert !IsSpace(b.tags[k][0]);
    }
    TrimIdempotent(title);
    TrimIdempotent(description);
    assert !IsSpace(b.title[0]) && !IsSpace(b.description[0]);
  }
}
