/** The question list page of the front end: the page, filter and search
    read from the address bar, the list request built from them, the
    parameters each control writes back, the row of page buttons, and the
    plain-text excerpt shown for each question. */
module Home {
  import opened Common
  import opened Text
  import opened QuestionRoutes

  /** The questions per page that the page asks for. */
  const PageLimit: nat := 10

  /** The excerpt length used when none is given. */
  const DefaultExcerptLength: nat := 150

  /** The most page buttons shown at once. */
  const MaxButtons: nat := 7

  /** The search parameters of the address bar (`searchParams.get`); None is
      a parameter that is absent. */
  datatype Params = Params(page: Option<string>, filter: Option<string>, search: Option<string>)

  /** `parseInt(searchParams.get('page')) || 1`. */
  function CurrentPage(p: Params): int
  {
    IntOr(p.page, 1)
  }

  /** `searchParams.get('filter') || 'newest'`. */
  function FilterOf(p: Params): (r: string)
    ensures r != []
    ensures Truthy(p.filter) ==> r == p.filter.value
  {
    if Truthy(p.filter) then p.filter.value else "newest"
  }

  /** `searchParams.get('search') || ''`. */
  function SearchText(p: Params): (r: string)
    ensures r == [] <==> !Truthy(p.search)
  {
    if Truthy(p.search) then p.search.value else []
  }

  /** The search parameter written back with a non-empty search text only. */
  function SearchParam(search: string): (r: Option<string>)
    ensures r.None? <==> search == []
  {
    if search == [] then None else Some(search)
  }

  /** The list request the page sends: the current page, ten per page, the
      unanswered filter only when it is selected, and the search text only
      when there is one. The URL encoding of the search text is undone by the
      server and is not modelled. */
  function FetchQuery(p: Params): Query
  {
    Query(Some(IntToString(CurrentPage(p))), Some(NatToString(PageLimit)),
          if FilterOf(p) == "unanswered" then Some("unanswered") else None,
          SearchParam(SearchText(p)), None)
  }

  /** The server reads back what the page means: the same page, ten per
      page, the unanswered filter exactly when it is selected, the same
      search text and no tag. */
  lemma FetchQueryReadBack(p: Params)
    ensures PageOf(FetchQuery(p)) == CurrentPage(p)
    ensures LimitOf(FetchQuery(p)) == PageLimit
    ensures FetchQuery(p).filter == Some("unanswered") <==> FilterOf(p) == "unanswered"
    ensures SearchOf(FetchQuery(p)) == SearchText(p)
    ensures FetchQuery(p).tag.None?
  {
    ParseIntIntToString(CurrentPage(p));
    ParseIntNatToString(PageLimit);
  }

  /** `handleFilterChange`: the new filter, back to page 1, the search kept. */
  function FilterChanged(p: Params, newFilter: string): (r: Params)
    ensures CurrentPage(r) == 1
    ensures FilterOf(r) == if newFilter == [] then "newest" else newFilter
    ensures SearchText(r) == SearchText(p)
  {
    ParseIntNatToString(1);
    Params(Some(NatToString(1)), Some(newFilter), SearchParam(SearchText(p)))
  }

  /** `handlePageChange`: the chosen page (a zero page reads back as page 1),
      the filter and the search kept. */
  function PageChanged(p: Params, page: int): (r: Params)
    ensures CurrentPage(r) == if page == 0 then 1 else page
    ensures FilterOf(r) == FilterOf(p)
    ensures SearchText(r) == SearchText(p)
  {
    ParseIntIntToString(page);
    Params(Some(IntToString(page)), Some(FilterOf(p)), SearchParam(SearchText(p)))
  }

  /** `handleSearch`: the trimmed query as the search text (none when it is
      blank), back to page 1, the filter kept. */
  function Searched(p: Params, query: string): (r: Params)
    ensures CurrentPage(r) == 1
    ensures FilterOf(r) == FilterOf(p)
    ensures SearchText(r) == Trim(query)
  {
    ParseIntNatToString(1);
    Params(Some(NatToString(1)), Some(FilterOf(p)), SearchParam(Trim(query)))
  }

  /** `start, start + 1, ..., start + n - 1`. */
  function Range(start: int, n: nat): (r: seq<int>)
    ensures |r| == n && forall i :: 0 <= i < n ==> r[i] == start + i
  {
    seq(n, i => start + i)
  }

  /** `Math.max(1, currentPage - 3)`: the page of the first button. */
  function FirstButton(currentPage: int): (r: int)
    ensures r >= 1 && r >= currentPage - 3
  {
    if currentPage - 3 > 1 then currentPage - 3 else 1
  }

  /** `Math.min(7, totalPages)` as an array length (never negative). */
  function Slots(totalPages: int): (r: nat)
    ensures r <= MaxButtons && (r == 0 || r <= totalPages)
  {
    if totalPages <= 0 then 0 else if totalPages < MaxButtons then totalPages else MaxButtons
  }

  /** `page <= totalPages`: the slot's page exists and gets a button. */
  function Exists(totalPages: int): int -> bool
  {
    page => page <= totalPages
  }

  /** The page buttons: `min(7, totalPages)` slots numbered on from
      `max(1, currentPage - 3)`, each shown only when its page exists. */
  function PageButtons(currentPage: int, totalPages: int): seq<int>
  {
    Filter(Range(FirstButton(currentPage), Slots(totalPages)), Exists(totalPages))
  }

  /** How many of n pages from start exist. */
  function Shown(start: int, n: nat, totalPages: int): (r: nat)
    ensures r <= n
  {
    if totalPages < start then 0 else if totalPages - start + 1 < n then totalPages - start + 1 else n
  }

  /** Of a run of consecutive pages, the existing ones are an initial run. */
  lemma FilterRange(start: int, n: nat, totalPages: int)
    ensures Filter(Range(start, n), Exists(totalPages)) == Range(start, Shown(start, n, totalPages))
  {
    var k := Shown(start, n, totalPages);
    var keep := Exists(totalPages);
    var front, back := Range(start, k), Range(start + k, n - k);
    assert Range(start, n) == front + back;
    FilterConcat(front, back, keep);
    FilterAll(front, keep);
    FilterNone(back, keep);
  }

  /** The buttons are consecutive pages from `max(1, currentPage - 3)`, all
      of them existing pages, at most seven and at most `totalPages`. */
  lemma PageButtonsShape(currentPage: int, totalPages: int)
    ensures var r := PageButtons(currentPage, totalPages);
      && |r| <= MaxButtons && |r| <= (if totalPages < 0 then 0 else totalPages)
      && (forall i :: 0 <= i < |r| ==> r[i] == FirstButton(currentPage) + i)
      && (forall i :: 0 <= i < |r| ==> 1 <= r[i] <= totalPages)
  {
    FilterRange(FirstButton(currentPage), Slots(totalPages), totalPages);
  }

  /** The current page always has its button when it is an existing page. */
  lemma CurrentPageHasButton(currentPage: int, totalPages: int)
    requires 1 <= currentPage <= totalPages
    ensures currentPage in PageButtons(currentPage, totalPages)
  {
    var first := FirstButton(currentPage);
    FilterRange(first, Slots(totalPages), totalPages);
    assert PageButtons(currentPage, totalPages)[currentPage - first] == currentPage;
  }

  /** The pagination controls: shown only when there is more than one page;
      the previous and next buttons ask for the neighbouring pages and are
      enabled as the server says. */
  datatype Pager = Pager(previous: int, previousEnabled: bool, pages: seq<int>, next: int, nextEnabled: bool)

  function PagerOf(p: Pagination): (r: Option<Pager>)
    ensures r.Some? <==> p.totalPages > 1
  {
    if p.totalPages > 1 then
      Some(Pager(p.currentPage - 1, p.hasPrevPage, PageButtons(p.currentPage, p.totalPages),
                 p.currentPage + 1, p.hasNextPage))
    else None
  }

  /** Against the pagination the list handler returns for a valid page, an
      enabled next button and every page button lead to an existing page,
      and an enabled previous button to a lower page that is at least 1
      (it still leads past the end when the current page is past the end).
      A negative limit gives no controls at all. */
  lemma PagerLeadsToExistingPages(page: int, limit: int, total: nat)
    requires page >= 1 && limit != 0
    ensures var r := PagerOf(PaginationOf(page, limit, total));
      var totalPages := PaginationOf(page, limit, total).totalPages;
      r.Some? ==>
        && (r.value.previousEnabled ==> 1 <= r.value.previous < page)
        && (r.value.nextEnabled ==> 1 <= r.value.next <= totalPages)
        && (forall i :: 0 <= i < |r.value.pages| ==> 1 <= r.value.pages[i] <= totalPages)
  {
    var p := PaginationOf(page, limit, total);
    PageCountBelow(total, limit, page);
    PageCountBelow(total, limit, page - 1);
    PageButtonsShape(page, p.totalPages);
  }

  /** A page past the end of the listing (typed into the address bar) shows
      no page button at all once it is more than three pages past the end. */
  lemma FarPageHasNoButtons(currentPage: int, totalPages: int)
    requires currentPage - 3 > totalPages
    ensures PageButtons(currentPage, totalPages) == []
  {
    FilterRange(FirstButton(currentPage), Slots(totalPages), totalPages);
  }

  // ---------------------------------------------------------------------
  // Excerpts

  /** The index of the first occurrence of c in s. */
  function IndexOf(s: string, c: char): (i: nat)
    requires c in s
    ensures i < |s| && s[i] == c
    ensures forall j :: 0 <= j < i ==> s[j] != c
  {
    if s[0] == c then 0 else 1 + IndexOf(s[1..], c)
  }

  /** Some '<' is followed, later on, by a '>': the text still holds
      something `/<[^>]*>/` matches. */
  predicate HasTag(s: string)
  {
    exists i, j :: 0 <= i < j < |s| && s[i] == '<' && s[j] == '>'
  }

  /** `replace(/<[^>]*>/g, '')`: scanning from the left, a '<' with a '>'
      somewhere after it starts a match that ends at the first such '>' and
      is removed; any other character is kept. */
  function StripTags(s: string): (r: string)
    ensures |r| <= |s|
    ensures forall c :: c in r ==> c in s
    decreases |s|
  {
    if s == [] then []
    else if s[0] == '<' && '>' in s[1..] then
      var rest := s[1..][IndexOf(s[1..], '>') + 1..];
      var r := StripTags(rest);
      assert forall c :: c in rest ==> c in s;
      r
    else
      var r := [s[0]] + StripTags(s[1..]);
      assert forall c :: c in s[1..] ==> c in s;
      r
  }

  /** Nothing the pattern matches is left after stripping. */
  lemma {:induction false} StripTagsLeavesNoTag(s: string)
    ensures !HasTag(StripTags(s))
    decreases |s|
  {
    if s == [] {
    } else if s[0] == '<' && '>' in s[1..] {
      StripTagsLeavesNoTag(s[1..][IndexOf(s[1..], '>') + 1..]);
    } else {
      var t := StripTags(s[1..]);
      StripTagsLeavesNoTag(s[1..]);
      var r := StripTags(s);
      assert r == [s[0]] + t;
      forall i, j | 0 <= i < j < |r| && r[i] == '<'
        ensures r[j] != '>'
      {
        assert r[j] == t[j - 1] && r[j] in t;
        if i > 0 {
          assert t[i - 1] == '<';
        }
      }
    }
  }

  /** Text without markup is left as it is. */
  lemma {:induction false} StripTagsPlainText(s: string)
    requires !HasTag(s)
    ensures StripTags(s) == s
    decreases |s|
  {
    if s != [] {
      var t := s[1..];
      if s[0] == '<' {
        forall j | 0 <= j < |t|
          ensures t[j] != '>'
        {
          assert s[j + 1] == t[j];
        }
      }
      forall i, j | 0 <= i < j < |t| && t[i] == '<'
        ensures t[j] != '>'
      {
        assert s[i + 1] == t[i] && s[j + 1] == t[j];
      }
      StripTagsPlainText(t);
    }
  }

  /** Text before the first '<' is kept as it is. */
  lemma {:induction false} StripTagsKeepsPlainPrefix(p: string, q: string)
    requires '<' !in p
    ensures StripTags(p + q) == p + StripTags(q)
  {
    if p != [] {
      assert (p + q)[0] == p[0] && (p + q)[1..] == p[1..] + q;
      StripTagsKeepsPlainPrefix(p[1..], q);
      assert p == [p[0]] + p[1..];
    } else {
      assert p + q == q;
    }
  }

  /** A '<', text without '>', and the '>' that closes it are removed
      together, and stripping goes on after them. */
  lemma StripTagsDropsTag(t: string, q: string)
    requires '>' !in t
    ensures StripTags("<" + t + ">" + q) == StripTags(q)
  {
    var s := "<" + t + ">" + q;
    assert s[1..] == t + ">" + q;
    assert s[1..][|t|] == '>';
    forall j | 0 <= j < |t|
      ensures s[1..][j] != '>'
    {
      assert s[1..][j] == t[j];
    }
    var k := IndexOf(s[1..], '>');
    assert k == |t|;
    assert s[1..][k + 1..] == q;
  }

  /** Stripping twice strips nothing more. */
  lemma StripTagsIdempotent(s: string)
    ensures StripTags(StripTags(s)) == StripTags(s)
  {
    StripTagsLeavesNoTag(s);
    StripTagsPlainText(StripTags(s));
  }

  /** Stripping only removes characters: what is left keeps its order. */
  lemma {:induction false} StripTagsKeepsOrder(s: string)
    ensures IsSubsequence(StripTags(s), s)
    decreases |s|
  {
    if s == [] {
    } else if s[0] == '<' && '>' in s[1..] {
      var k := IndexOf(s[1..], '>') + 2;
      assert s[1..][k - 1..] == s[k..];
      StripTagsKeepsOrder(s[k..]);
      SubsequenceOfSuffix(StripTags(s), s, k);
    } else {
      StripTagsKeepsOrder(s[1..]);
      var r := StripTags(s);
      assert r[0] == s[0] && r[1..] == StripTags(s[1..]);
    }
  }

  /** `createExcerpt`: the text of the HTML without tags, cut to maxLength
      characters with "..." added when it is longer. */
  function CreateExcerpt(html: string, maxLength: nat): (r: string)
    ensures |r| <= maxLength + 3
    ensures var text := StripTags(html);
      if |text| <= maxLength then r == text
      else |r| == maxLength + 3 && r[..maxLength] == text[..maxLength] && r[maxLength..] == "..."
  {
    var text := StripTags(html);
    if |text| <= maxLength then text else text[..maxLength] + "..."
  }

  /** An excerpt shows no markup. */
  lemma ExcerptHasNoTag(html: string, maxLength: nat)
    ensures !HasTag(CreateExcerpt(html, maxLength))
  {
    var text := StripTags(html);
    StripTagsLeavesNoTag(html);
    var r := CreateExcerpt(html, maxLength);
    if |text| > maxLength {
      forall i, j | 0 <= i < j < |r| && r[i] == '<'
        ensures r[j] != '>'
      {
        if j < maxLength {
          assert r[i] == text[i] && r[j] == text[j];
        } else {
          assert r[j] == "..."[j - maxLength];
        }
      }
    }
  }
}
