/** Identifiers, optional request fields and the sequence helpers that the
    route handlers share: document ids enumerated in natural (ascending)
    order, prefixes, and skip/limit windows. */
module Common {

  /** A document id. Ids are handed out in increasing order, so ascending id
      order is the store's natural (insertion) order. */
  type Id = nat

  datatype Option<+T> = None | Some(value: T)

  /** A field of a request body is truthy in JavaScript when it is present and
      is not the empty string. */
  predicate Truthy(o: Option<string>)
  {
    o.Some? && o.value != ""
  }

  predicate StrictlyIncreasing(s: seq<nat>)
  {
    forall i, j :: 0 <= i < j < |s| ==> s[i] < s[j]
  }

  /** k is the largest element of s. */
  predicate IsMaxOf(k: nat, s: set<nat>)
  {
    k in s && forall j :: j in s ==> j <= k
  }

  /** k is the smallest element of s. */
  predicate IsMinOf(k: nat, s: set<nat>)
  {
    k in s && forall j :: j in s ==> k <= j
  }

  lemma {:induction false} MaxExists(s: set<nat>)
    requires s != {}
    ensures exists k :: IsMaxOf(k, s)
  {
    var x :| x in s;
    if s == {x} {
      assert IsMaxOf(x, s);
    } else {
      MaxExists(s - {x});
      var k :| IsMaxOf(k, s - {x});
      var top := if x > k then x else k;
      forall j | j in s
        ensures j <= top
      {
        if j != x {
          assert j in s - {x};
        }
      }
      assert IsMaxOf(top, s);
    }
  }

  /** The largest element of a non-empty finite set. */
  function Max(s: set<nat>): (k: nat)
    requires s != {}
    ensures k in s && forall j :: j in s ==> j <= k
  {
    MaxExists(s);
    var k :| IsMaxOf(k, s);
    k
  }

  lemma {:induction false} MinExists(s: set<nat>)
    requires s != {}
    ensures exists k :: IsMinOf(k, s)
  {
    var x :| x in s;
    if s == {x} {
      assert IsMinOf(x, s);
    } else {
      MinExists(s - {x});
      var k :| IsMinOf(k, s - {x});
      var bottom := if x < k then x else k;
      forall j | j in s
        ensures bottom <= j
      {
        if j != x {
          assert j in s - {x};
        }
      }
      assert IsMinOf(bottom, s);
    }
  }

  /** The smallest element of a non-empty finite set. */
  function Min(s: set<nat>): (k: nat)
    requires s != {}
    ensures k in s && forall j :: j in s ==> k <= j
  {
    MinExists(s);
    var k :| IsMinOf(k, s);
    k
  }

  /** A finite set of ids in ascending order. */
  function Ascending(s: set<nat>): (r: seq<nat>)
    ensures |r| == |s|
    ensures forall k :: k in r <==> k in s
    ensures StrictlyIncreasing(r)
    decreases |s|
  {
    if s == {} then []
    else
      var k := Max(s);
      var rest := Ascending(s - {k});
      AppendLargest(rest, s - {k}, k);
      rest + [k]
  }

  lemma AppendLargest(rest: seq<nat>, s: set<nat>, k: nat)
    requires forall x :: x in rest <==> x in s
    requires StrictlyIncreasing(rest)
    requires forall j :: j in s ==> j < k
    ensures forall x :: x in rest + [k] <==> x in s + {k}
    ensures StrictlyIncreasing(rest + [k])
  {
    assert forall i :: 0 <= i < |rest| ==> rest[i] in s;
  }

  /** The keys of a map in ascending order: the order in which a scan of a
      collection returns its documents. */
  function SortedKeys<V>(m: map<Id, V>): (r: seq<Id>)
    ensures forall k :: k in r <==> k in m
    ensures forall i :: 0 <= i < |r| ==> r[i] in m
    ensures StrictlyIncreasing(r)
    ensures |r| == |m|
  {
    var r := Ascending(m.Keys);
    forall i | 0 <= i < |r|
      ensures r[i] in m
    {
      assert r[i] in r;
    }
    r
  }

  /** The documents of a collection as (id, document) rows in natural order. */
  function Rows<V>(m: map<Id, V>): (r: seq<(Id, V)>)
    ensures |r| == |m|
    ensures forall i :: 0 <= i < |r| ==> r[i].0 in m && m[r[i].0] == r[i].1
    ensures forall i, j :: 0 <= i < j < |r| ==> r[i].0 < r[j].0
  {
    var keys := SortedKeys(m);
    var r := seq(|keys|, i requires 0 <= i < |keys| => (keys[i], m[keys[i]]));
    assert forall i :: 0 <= i < |r| ==> r[i].0 == keys[i];
    r
  }

  /** Every document of the collection has its row. */
  lemma RowsComplete<V>(m: map<Id, V>)
    ensures forall k :: k in m ==> (k, m[k]) in Rows(m)
  {
    var keys, r := SortedKeys(m), Rows(m);
    forall k | k in m
      ensures (k, m[k]) in r
    {
      var i :| 0 <= i < |keys| && keys[i] == k;
      assert r[i] == (k, m[k]);
    }
  }

  /** `.limit(n)`: the first n elements, or all of them when there are fewer. */
  function Take<T>(s: seq<T>, n: nat): (r: seq<T>)
    ensures |r| == if |s| <= n then |s| else n
    ensures r == s[..|r|]
  {
    if |s| <= n then s else s[..n]
  }

  /** `.skip(skip).limit(limit)` on an already ordered result. */
  function Window<T>(s: seq<T>, skip: nat, limit: nat): (r: seq<T>)
    ensures |r| <= limit
    ensures skip >= |s| ==> r == []
    ensures skip <= |s| ==> skip + |r| <= |s|
    ensures skip <= |s| ==> r == s[skip..skip + |r|]
    ensures forall x :: x in r ==> x in s
    ensures forall k :: skip <= k < |s| && k < skip + limit ==> s[k] in r
  {
    if skip >= |s| then []
    else
      var r := Take(s[skip..], limit);
      assert forall k :: skip <= k < |s| && k < skip + limit ==> s[k] == r[k - skip];
      r
  }

  /** The elements of a sequence that satisfy a predicate, in order. */
  function Filter<T>(s: seq<T>, p: T -> bool): (r: seq<T>)
    ensures |r| <= |s|
    ensures forall i :: 0 <= i < |r| ==> r[i] in s && p(r[i])
    ensures forall i :: 0 <= i < |s| && p(s[i]) ==> s[i] in r
  {
    if s == [] then []
    else (if p(s[0]) then [s[0]] else []) + Filter(s[1..], p)
  }

  /** Filtering distributes over concatenation. */
  lemma {:induction false} FilterConcat<T>(a: seq<T>, b: seq<T>, p: T -> bool)
    ensures Filter(a + b, p) == Filter(a, p) + Filter(b, p)
  {
    if a != [] {
      assert (a + b)[1..] == a[1..] + b;
      FilterConcat(a[1..], b, p);
    } else {
      assert a + b == b;
    }
  }

  /** Nothing passes a filter that no element satisfies. */
  lemma {:induction false} FilterNone<T>(s: seq<T>, p: T -> bool)
    requires forall i :: 0 <= i < |s| ==> !p(s[i])
    ensures Filter(s, p) == []
  {
    if s != [] {
      FilterNone(s[1..], p);
    }
  }

  /** A filter that every element satisfies keeps the sequence. */
  lemma {:induction false} FilterAll<T>(s: seq<T>, p: T -> bool)
    requires forall i :: 0 <= i < |s| ==> p(s[i])
    ensures Filter(s, p) == s
  {
    if s != [] {
      FilterAll(s[1..], p);
      assert [s[0]] + s[1..] == s;
    }
  }

  /** a is b with some elements deleted: the elements of a occur in b in the
      same order. */
  ghost predicate IsSubsequence<T>(a: seq<T>, b: seq<T>)
    decreases |b|
  {
    if a == [] then true
    else if b == [] then false
    else (a[0] == b[0] && IsSubsequence(a[1..], b[1..])) || IsSubsequence(a, b[1..])
  }

  /** A filter keeps the order of what it keeps. */
  lemma {:induction false} FilterIsSubsequence<T>(s: seq<T>, p: T -> bool)
    ensures IsSubsequence(Filter(s, p), s)
  {
    if s != [] {
      FilterIsSubsequence(s[1..], p);
      if p(s[0]) {
        assert Filter(s, p)[0] == s[0] && Filter(s, p)[1..] == Filter(s[1..], p);
      } else {
        assert Filter(s, p) == Filter(s[1..], p);
      }
    }
  }

  /** A prefix of a subsequence is a subsequence. */
  lemma {:induction false} SubsequencePrefix<T>(a: seq<T>, b: seq<T>, n: nat)
    requires IsSubsequence(a, b) && n <= |a|
    ensures IsSubsequence(a[..n], b)
    decreases |b|
  {
    if n > 0 {
      if a[0] == b[0] && IsSubsequence(a[1..], b[1..]) {
        SubsequencePrefix(a[1..], b[1..], n - 1);
        assert a[..n][1..] == a[1..][..n - 1];
      } else {
        SubsequencePrefix(a, b[1..], n);
      }
    }
  }

  /** A subsequence of a suffix of b is a subsequence of b. */
  lemma {:induction false} SubsequenceOfSuffix<T>(a: seq<T>, b: seq<T>, k: nat)
    requires k <= |b| && IsSubsequence(a, b[k..])
    ensures IsSubsequence(a, b)
    decreases k
  {
    if k > 0 {
      assert b[1..][k - 1..] == b[k..];
      SubsequenceOfSuffix(a, b[1..], k - 1);
    }
  }

  /** Filtering ids keeps exactly the ids that satisfy the predicate, in
      their original increasing order. */
  lemma {:induction false} FilterIds(s: seq<nat>, p: nat -> bool)
    requires StrictlyIncreasing(s)
    ensures forall x :: x in Filter(s, p) <==> x in s && p(x)
    ensures StrictlyIncreasing(Filter(s, p))
  {
    if s != [] {
      FilterIds(s[1..], p);
      assert s == [s[0]] + s[1..];
    }
  }

  // ---- Page arithmetic ----

  lemma MulNonNegative(a: int, b: int)
    requires a >= 0 && b >= 0
    ensures a * b >= 0
  {
  }

  lemma MulMonotone(a: int, b: int, c: int)
    requires a <= b && c >= 0
    ensures a * c <= b * c
  {
  }

  /** Position k lies on the page of size limit numbered k / limit (from 0). */
  lemma DivBounds(k: nat, limit: nat)
    requires limit > 0
    ensures (k / limit) * limit <= k < (k / limit) * limit + limit
  {
  }

  /** A row passes when its document does. */
  function RowFilter<V>(keep: V -> bool): ((Id, V)) -> bool
  {
    (row: (Id, V)) => keep(row.1)
  }

  /** Every element of a reordering of the filtered rows is a stored row
      that passes the filter. */
  lemma ChosenSound<V>(m: map<Id, V>, keep: V -> bool, sorted: seq<(Id, V)>)
    requires multiset(sorted) == multiset(Filter(Rows(m), RowFilter(keep)))
    ensures forall i :: 0 <= i < |sorted| ==> sorted[i].0 in m && m[sorted[i].0] == sorted[i].1 && keep(sorted[i].1)
  {
    var chosen := Filter(Rows(m), RowFilter(keep));
    forall i | 0 <= i < |sorted|
      ensures sorted[i].0 in m && m[sorted[i].0] == sorted[i].1 && keep(sorted[i].1)
    {
      assert sorted[i] in multiset(chosen);
      FilteredRowSound(m, keep, sorted[i]);
    }
  }

  lemma FilteredRowSound<V>(m: map<Id, V>, keep: V -> bool, row: (Id, V))
    requires row in Filter(Rows(m), RowFilter(keep))
    ensures row.0 in m && m[row.0] == row.1 && keep(row.1)
  {
    var rows := Rows(m);
    var chosen := Filter(rows, RowFilter(keep));
    var j :| 0 <= j < |chosen| && chosen[j] == row;
    var k :| 0 <= k < |rows| && rows[k] == chosen[j];
  }

  /** Every stored row that passes the filter is in any reordering of the
      filtered rows. */
  lemma ChosenComplete<V>(m: map<Id, V>, keep: V -> bool, sorted: seq<(Id, V)>)
    requires multiset(sorted) == multiset(Filter(Rows(m), RowFilter(keep)))
    ensures forall id :: id in m && keep(m[id]) ==> (id, m[id]) in sorted
  {
    var rows := Rows(m);
    var chosen := Filter(rows, RowFilter(keep));
    forall id | id in m && keep(m[id])
      ensures (id, m[id]) in sorted
    {
      RowsComplete(m);
      var k :| 0 <= k < |rows| && rows[k] == (id, m[id]);
      assert (id, m[id]) in chosen;
      assert (id, m[id]) in multiset(sorted);
    }
  }

  // ---- Each document at most once ----

  /** No two elements of s share a key. */
  predicate DistinctBy<T, K(==)>(s: seq<T>, key: T -> K)
  {
    forall i, j :: 0 <= i < j < |s| ==> key(s[i]) != key(s[j])
  }

  /** The id of a row. */
  function RowId<V>(row: (Id, V)): Id
  {
    row.0
  }

  /** Filtering keeps keys distinct. */
  lemma {:induction false} FilterKeepsDistinct<T, K>(s: seq<T>, p: T -> bool, key: T -> K)
    requires DistinctBy(s, key)
    ensures DistinctBy(Filter(s, p), key)
  {
    if s != [] {
      FilterKeepsDistinct(s[1..], p, key);
      var f := Filter(s[1..], p);
      var r := Filter(s, p);
      if p(s[0]) {
        assert r == [s[0]] + f;
        forall k | 0 <= k < |f|
          ensures key(s[0]) != key(f[k])
        {
          var m :| 0 <= m < |s[1..]| && s[1..][m] == f[k];
          assert s[m + 1] == f[k];
        }
        forall i, j | 0 <= i < j < |r|
          ensures key(r[i]) != key(r[j])
        {
          assert r[j] == f[j - 1];
          if i > 0 {
            assert r[i] == f[i - 1];
          }
        }
      } else {
        assert r == f;
      }
    }
  }

  /** With distinct keys, an element occurs at most once. */
  lemma {:induction false} DistinctOccursOnce<T, K>(s: seq<T>, key: T -> K, x: T)
    requires DistinctBy(s, key)
    ensures multiset(s)[x] <= 1
  {
    if s != [] {
      DistinctOccursOnce(s[1..], key, x);
      assert s == [s[0]] + s[1..];
      forall k | 0 <= k < |s[1..]|
        ensures s[1..][k] != s[0]
      {
        assert key(s[k + 1]) != key(s[0]);
      }
      assert s[0] !in multiset(s[1..]);
    }
  }

  /** An element that occurs at most once is at no other position. */
  lemma OccursOnceApart<T>(s: seq<T>, i: nat, j: nat)
    requires i < j < |s| && multiset(s)[s[i]] <= 1
    ensures s[i] != s[j]
  {
    assert s == s[..j] + s[j..];
    assert s[..j][i] == s[i] && s[j..][0] == s[j];
    assert multiset(s) == multiset(s[..j]) + multiset(s[j..]);
  }

  /** A reordering keeps keys distinct. */
  lemma PermutationKeepsDistinct<T, K>(a: seq<T>, b: seq<T>, key: T -> K)
    requires multiset(a) == multiset(b) && DistinctBy(b, key)
    ensures DistinctBy(a, key)
  {
    forall i, j | 0 <= i < j < |a|
      ensures key(a[i]) != key(a[j])
    {
      DistinctOccursOnce(b, key, a[i]);
      OccursOnceApart(a, i, j);
      assert a[i] in multiset(b) && a[j] in multiset(b);
      var p :| 0 <= p < |b| && b[p] == a[i];
      var q :| 0 <= q < |b| && b[q] == a[j];
      if p < q {
        assert key(b[p]) != key(b[q]);
      } else {
        assert key(b[q]) != key(b[p]);
      }
    }
  }

  /** A prefix keeps keys distinct. */
  lemma DistinctPrefix<T, K>(s: seq<T>, key: T -> K, n: nat)
    requires DistinctBy(s, key) && n <= |s|
    ensures DistinctBy(s[..n], key)
  {
  }

  /** A prefix of rows with distinct ids has distinct ids. */
  lemma TakeDistinctIds<V>(rows: seq<(Id, V)>, n: nat)
    requires forall i, j :: 0 <= i < j < |rows| ==> rows[i].0 != rows[j].0
    ensures var r := Take(rows, n); forall i, j :: 0 <= i < j < |r| ==> r[i].0 != r[j].0
  {
    var r := Take(rows, n);
    forall i, j | 0 <= i < j < |r|
      ensures r[i].0 != r[j].0
    {
      assert r[i] == rows[i] && r[j] == rows[j];
    }
  }

  /** Every reordering of the filtered rows holds each id at most once. */
  lemma ChosenDistinct<V>(m: map<Id, V>, keep: V -> bool, sorted: seq<(Id, V)>)
    requires multiset(sorted) == multiset(Filter(Rows(m), RowFilter(keep)))
    ensures forall i, j :: 0 <= i < j < |sorted| ==> sorted[i].0 != sorted[j].0
  {
    var rows := Rows(m);
    assert DistinctBy(rows, RowId);
    FilterKeepsDistinct(rows, RowFilter(keep), RowId);
    PermutationKeepsDistinct(sorted, Filter(rows, RowFilter(keep)), RowId);
    assert DistinctBy(sorted, RowId);
  }

  /** The ids of a sequence of rows. */
  ghost function IdSet<V>(s: seq<(Id, V)>): set<Id>
  {
    if s == [] then {} else {s[0].0} + IdSet(s[1..])
  }

  lemma {:induction false} IdSetMembers<V>(s: seq<(Id, V)>)
    ensures forall x :: x in IdSet(s) <==> exists i :: 0 <= i < |s| && s[i].0 == x
  {
    if s != [] {
      IdSetMembers(s[1..]);
      forall x | x in IdSet(s)
        ensures exists i :: 0 <= i < |s| && s[i].0 == x
      {
        if x != s[0].0 {
          assert x in IdSet(s[1..]);
          var i :| 0 <= i < |s[1..]| && s[1..][i].0 == x;
          assert s[i + 1].0 == x;
        }
      }
      forall x, i | 0 <= i < |s| && s[i].0 == x
        ensures x in IdSet(s)
      {
        if i > 0 {
          assert s[1..][i - 1].0 == x;
        }
      }
    }
  }

  /** Rows with distinct ids have as many ids as rows. */
  lemma {:induction false} IdSetSize<V>(s: seq<(Id, V)>)
    requires forall i, j :: 0 <= i < j < |s| ==> s[i].0 != s[j].0
    ensures |IdSet(s)| == |s|
  {
    if s != [] {
      IdSetSize(s[1..]);
      IdSetMembers(s[1..]);
      forall i | 0 <= i < |s[1..]|
        ensures s[1..][i].0 != s[0].0
      {
        assert s[1..][i] == s[i + 1];
      }
      assert s[0].0 !in IdSet(s[1..]);
    }
  }

  /** The ids of the stored documents that keep selects. */
  function SelectedIds<V>(m: map<Id, V>, keep: V -> bool): set<Id>
  {
    set id | id in m && keep(m[id])
  }

  /** A reordering of the filtered rows has one row per stored document that
      passes the filter. */
  lemma ChosenCount<V>(m: map<Id, V>, keep: V -> bool, sorted: seq<(Id, V)>)
    requires multiset(sorted) == multiset(Filter(Rows(m), RowFilter(keep)))
    ensures |sorted| == |SelectedIds(m, keep)|
  {
    ChosenDistinct(m, keep, sorted);
    IdSetSize(sorted);
    ChosenIds(m, keep, sorted);
  }

  /** The ids of a reordering of the filtered rows are the selected ids. */
  lemma ChosenIds<V>(m: map<Id, V>, keep: V -> bool, sorted: seq<(Id, V)>)
    requires multiset(sorted) == multiset(Filter(Rows(m), RowFilter(keep)))
    ensures IdSet(sorted) == SelectedIds(m, keep)
  {
    ChosenSound(m, keep, sorted);
    ChosenComplete(m, keep, sorted);
    IdSetMembers(sorted);
    var chosen := SelectedIds(m, keep);
    forall x | x in IdSet(sorted)
      ensures x in chosen
    {
      var i :| 0 <= i < |sorted| && sorted[i].0 == x;
    }
    forall x | x in chosen
      ensures x in IdSet(sorted)
    {
      var i :| 0 <= i < |sorted| && sorted[i] == (x, m[x]);
    }
  }

}
