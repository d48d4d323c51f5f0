/** The segment finder: one page of the segments whose name matches the
    search, newest first, together with the number of matching segments.
    The store runs a `$match` on the name, then a `$facet` whose first branch
    sorts by id descending, skips and limits, and whose second branch counts. */
module SegmentFinder {
  import opened Wrappers
  import opened SegmentModels
  import opened NameSearch
  import opened Sequences

  /** The name filter as a predicate on segments. */
  function NameFilter(nameSearch: Option<string>): Segment -> bool
  {
    (s: Segment) => NameMatches(nameSearch, s.name)
  }

  /** The `$match` stage: the segments whose name passes the name filter. */
  function MatchByName(nameSearch: Option<string>, segments: seq<Segment>): (r: seq<Segment>)
    ensures forall s :: s in r <==> s in segments && NameMatches(nameSearch, s.name)
    ensures forall s :: multiset(r)[s] == if NameMatches(nameSearch, s.name) then multiset(segments)[s] else 0
  {
    Filter(NameFilter(nameSearch), segments)
  }

  /** The matches keep the store order: matching distributes over
      concatenation. */
  lemma MatchByNameAppend(nameSearch: Option<string>, a: seq<Segment>, b: seq<Segment>)
    ensures MatchByName(nameSearch, a + b) == MatchByName(nameSearch, a) + MatchByName(nameSearch, b)
  {
    FilterAppend(NameFilter(nameSearch), a, b);
  }

  /** Without search text (absent or empty) the `$match` stage is not added
      and every segment takes part. */
  lemma NoSearchKeepsAll(nameSearch: Option<string>, segments: seq<Segment>)
    requires nameSearch.None? || nameSearch.value == ""
    ensures MatchByName(nameSearch, segments) == segments
  {
    FilterKeepsAll(NameFilter(nameSearch), segments);
  }

  ghost predicate ByIdDescending(s: seq<Segment>)
  {
    forall i, j :: 0 <= i < j < |s| ==> s[i].id >= s[j].id
  }

  ghost predicate StrictlyByIdDescending(s: seq<Segment>)
  {
    forall i, j :: 0 <= i < j < |s| ==> s[i].id > s[j].id
  }

  /** Store identifiers are unique within a collection. */
  ghost predicate DistinctIds(s: seq<Segment>)
  {
    forall i, j :: 0 <= i < j < |s| ==> s[i].id != s[j].id
  }

  /** Place `x` in front of the first segment with an id no larger than its own. */
  function InsertById(x: Segment, s: seq<Segment>): (r: seq<Segment>)
    requires ByIdDescending(s)
    ensures ByIdDescending(r)
    ensures multiset(r) == multiset(s) + multiset{x}
  {
    if |s| == 0 || s[0].id <= x.id then
      ConsKeepsOrder(x, s);
      [x] + s
    else
      var rest := InsertById(x, s[1..]);
      assert s == [s[0]] + s[1..];
      BoundedByHead(s, x, rest);
      ConsKeepsOrder(s[0], rest);
      [s[0]] + rest
  }

  /** Putting `h` in front of a list whose ids are all at most (below) its own keeps the order. */
  lemma ConsKeepsOrder(h: Segment, s: seq<Segment>)
    requires ByIdDescending(s)
    requires |s| == 0 || s[0].id <= h.id
    ensures ByIdDescending([h] + s)
    ensures StrictlyByIdDescending(s) && (|s| == 0 || s[0].id < h.id) ==> StrictlyByIdDescending([h] + s)
  {
  }

  /** Every element of `rest`, a rearrangement of the tail of `s` plus a
      smaller `x`, has an id no larger (with `s` strict, smaller) than the head of `s`. */
  lemma BoundedByHead(s: seq<Segment>, x: Segment, rest: seq<Segment>)
    requires 0 < |s| && ByIdDescending(s) && x.id < s[0].id
    requires multiset(rest) == multiset(s[1..]) + multiset{x}
    ensures forall j :: 0 <= j < |rest| ==> rest[j].id <= s[0].id
    ensures StrictlyByIdDescending(s) ==> forall j :: 0 <= j < |rest| ==> rest[j].id < s[0].id
  {
    forall j | 0 <= j < |rest|
      ensures rest[j].id <= s[0].id
      ensures StrictlyByIdDescending(s) ==> rest[j].id < s[0].id
    {
      assert rest[j] in multiset(rest);
      if rest[j] != x {
        assert rest[j] in multiset(s[1..]);
        var k :| 0 <= k < |s[1..]| && s[1..][k] == rest[j];
        assert s[k + 1] == rest[j];
      }
    }
  }

  /** Inserting a segment whose id is new into a strictly ordered list keeps it strictly ordered. */
  lemma {:induction false} InsertKeepsStrictOrder(x: Segment, s: seq<Segment>)
    requires ByIdDescending(s)
    ensures StrictlyByIdDescending(s) && (forall k :: 0 <= k < |s| ==> s[k].id != x.id)
        ==> StrictlyByIdDescending(InsertById(x, s))
  {
    if StrictlyByIdDescending(s) && (forall k :: 0 <= k < |s| ==> s[k].id != x.id) {
      if |s| == 0 || s[0].id <= x.id {
        ConsKeepsOrder(x, s);
      } else {
        InsertKeepsStrictOrder(x, s[1..]);
        assert s == [s[0]] + s[1..];
        var rest := InsertById(x, s[1..]);
        BoundedByHead(s, x, rest);
        ConsKeepsOrder(s[0], rest);
      }
    }
  }

  /** The `$sort: {_id: -1}` stage: the same segments, newest first. */
  function SortByIdDescending(s: seq<Segment>): (r: seq<Segment>)
    ensures ByIdDescending(r)
    ensures multiset(r) == multiset(s)
    ensures DistinctIds(s) ==> StrictlyByIdDescending(r)
  {
    if |s| == 0 then []
    else
      var sortedTail := SortByIdDescending(s[1..]);
      assert s == [s[0]] + s[1..];
      assert multiset(s) == multiset{s[0]} + multiset(s[1..]);
      TailKeepsDistinctIds(s);
      HeadIdNotInRest(s, sortedTail);
      InsertKeepsStrictOrder(s[0], sortedTail);
      InsertById(s[0], sortedTail)
  }

  lemma TailKeepsDistinctIds(s: seq<Segment>)
    requires 0 < |s|
    ensures DistinctIds(s) ==> DistinctIds(s[1..])
  {
    if DistinctIds(s) {
      forall i, j | 0 <= i < j < |s[1..]|
        ensures s[1..][i].id != s[1..][j].id
      {
        assert s[1..][i] == s[i + 1] && s[1..][j] == s[j + 1];
      }
    }
  }

  /** With unique ids, the head's id appears nowhere in a rearrangement of the tail. */
  lemma HeadIdNotInRest(s: seq<Segment>, t: seq<Segment>)
    requires 0 < |s|
    requires multiset(t) == multiset(s[1..])
    ensures DistinctIds(s) ==> forall j :: 0 <= j < |t| ==> t[j].id != s[0].id
  {
    if DistinctIds(s) {
      forall j | 0 <= j < |t|
        ensures t[j].id != s[0].id
      {
        assert t[j] in multiset(s[1..]);
        var k :| 0 <= k < |s[1..]| && s[1..][k] == t[j];
        assert s[k + 1] == t[j];
      }
    }
  }

  /** In a strictly newest-first list the head has the largest id, and it is
      the only element with that id. */
  lemma HeadHasLargestId(a: seq<Segment>, x: Segment)
    requires StrictlyByIdDescending(a) && x in a
    ensures x.id <= a[0].id
    ensures x.id == a[0].id ==> x == a[0]
  {
    var k :| 0 <= k < |a| && a[k] == x;
  }

  /** With unique ids there is only one newest-first order: any arrangement
      of the same segments by strictly descending id is the sorted one. */
  lemma {:induction false} DescendingOrderIsUnique(a: seq<Segment>, b: seq<Segment>)
    requires StrictlyByIdDescending(a) && StrictlyByIdDescending(b)
    requires multiset(a) == multiset(b)
    ensures a == b
  {
    assert |a| == |multiset(a)| && |b| == |multiset(b)|;
    if |a| > 0 {
      assert a[0] in multiset(b) && b[0] in multiset(a);
      HeadHasLargestId(b, a[0]);
      HeadHasLargestId(a, b[0]);
      assert a[0] == b[0];
      assert a == [a[0]] + a[1..];
      assert b == [b[0]] + b[1..];
      assert multiset(a[1..]) == multiset(b[1..]) by {
        assert multiset(a[1..]) == multiset(a) - multiset{a[0]};
        assert multiset(b[1..]) == multiset(b) - multiset{b[0]};
      }
      TailKeepsStrictOrder(a);
      TailKeepsStrictOrder(b);
      DescendingOrderIsUnique(a[1..], b[1..]);
    }
  }

  lemma TailKeepsStrictOrder(s: seq<Segment>)
    requires 0 < |s| && StrictlyByIdDescending(s)
    ensures StrictlyByIdDescending(s[1..])
  {
    forall i, j | 0 <= i < j < |s[1..]|
      ensures s[1..][i].id > s[1..][j].id
    {
      assert s[1..][i] == s[i + 1] && s[1..][j] == s[j + 1];
    }
  }

  /** `found` is what a successful search returns: the total is the number
      of matches, and the page is the window of the matches sorted newest
      first, so it holds only matching stored segments, in order, and no more
      than `limit` of them or than the matches left after `skip`. */
  ghost predicate IsFoundPage(segments: seq<Segment>, skip: nat, limit: nat, nameSearch: Option<string>, found: FoundSegments)
  {
    PageShape(segments, skip, limit, nameSearch, found) && PageContents(segments, nameSearch, found.segments)
  }

  ghost predicate PageShape(segments: seq<Segment>, skip: nat, limit: nat, nameSearch: Option<string>, found: FoundSegments)
  {
    var matches := MatchByName(nameSearch, segments);
    WindowOfSorted(SortByIdDescending(matches), |matches|, skip, limit, found)
  }

  /** `found` is the `skip`/`limit` window of `sorted`, whose `n` elements are
      all counted in `totalCount`. */
  ghost predicate WindowOfSorted(sorted: seq<Segment>, n: nat, skip: nat, limit: nat, found: FoundSegments)
  {
    var page := found.segments;
    && found.totalCount == n >= 1
    && |page| <= limit
    && (skip >= n ==> |page| == 0)
    && (skip < n ==> |page| == Min(limit, n - skip))
    && page == Window(sorted, skip, limit)
  }

  ghost predicate PageContents(segments: seq<Segment>, nameSearch: Option<string>, page: seq<Segment>)
  {
    && ByIdDescending(page)
    && (DistinctIds(segments) ==> StrictlyByIdDescending(page))
    && (forall s :: s in page ==> s in segments && NameMatches(nameSearch, s.name))
  }

  /** `_findSegments`. A negative skip or a limit below one makes the store
      reject the pipeline. When nothing matches, the count branch of the facet
      is empty and reading its first row fails. Otherwise the page is the
      window of the matches sorted newest first, and the total is the number
      of matches whatever the window. */
  function FindSegments(segments: seq<Segment>, skip: int, limit: int, nameSearch: Option<string>)
    : (r: Result<FoundSegments, Error>)
    ensures r == Failure(BadSkip) <==> skip < 0
    ensures r == Failure(BadLimit) <==> 0 <= skip && limit < 1
    ensures r == Failure(NoCountRow) <==>
      0 <= skip && 1 <= limit && forall s :: s in segments ==> !NameMatches(nameSearch, s.name)
    ensures r.Success? <==>
      0 <= skip && 1 <= limit && exists s :: s in segments && NameMatches(nameSearch, s.name)
    ensures r.Success? ==> 0 <= skip && 1 <= limit && IsFoundPage(segments, skip, limit, nameSearch, r.value)
  {
    if skip < 0 then Failure(BadSkip)
    else if limit < 1 then Failure(BadLimit)
    else
      var matches := MatchByName(nameSearch, segments);
      NoMatchesIffNoneMatch(nameSearch, segments);
      if |matches| == 0 then Failure(NoCountRow)
      else
        PageOfMatches(nameSearch, segments, skip, limit);
        Success(FoundSegments(Window(SortByIdDescending(matches), skip, limit), |matches|))
  }

  /** The `$match` stage leaves nothing exactly when no name passes the filter. */
  lemma NoMatchesIffNoneMatch(nameSearch: Option<string>, segments: seq<Segment>)
    ensures |MatchByName(nameSearch, segments)| == 0
        <==> forall s :: s in segments ==> !NameMatches(nameSearch, s.name)
  {
    var matches := MatchByName(nameSearch, segments);
    assert |matches| > 0 ==> matches[0] in matches;
  }

  /** Any window of the sorted matches, with their number as the total, is
      a found page: newest first (strictly, with unique ids), holding only
      stored segments whose name matches. */
  lemma PageOfMatches(nameSearch: Option<string>, segments: seq<Segment>, skip: nat, limit: nat)
    requires 0 < |MatchByName(nameSearch, segments)|
    ensures var matches := MatchByName(nameSearch, segments);
      IsFoundPage(segments, skip, limit, nameSearch,
                  FoundSegments(Window(SortByIdDescending(matches), skip, limit), |matches|))
  {
    WindowShape(nameSearch, segments, skip, limit);
    WindowContents(nameSearch, segments, skip, limit);
  }

  lemma WindowShape(nameSearch: Option<string>, segments: seq<Segment>, skip: nat, limit: nat)
    requires 0 < |MatchByName(nameSearch, segments)|
    ensures var matches := MatchByName(nameSearch, segments);
      PageShape(segments, skip, limit, nameSearch,
                FoundSegments(Window(SortByIdDescending(matches), skip, limit), |matches|))
  {
    var matches := MatchByName(nameSearch, segments);
    SortKeepsLength(matches);
    SortedWindowShape(SortByIdDescending(matches), |matches|, skip, limit);
  }

  lemma SortedWindowShape(sorted: seq<Segment>, n: nat, skip: nat, limit: nat)
    requires |sorted| == n >= 1
    ensures WindowOfSorted(sorted, n, skip, limit, FoundSegments(Window(sorted, skip, limit), n))
  {
  }

  lemma SortKeepsLength(s: seq<Segment>)
    ensures |SortByIdDescending(s)| == |s|
  {
    var sorted := SortByIdDescending(s);
    assert |sorted| == |multiset(sorted)| == |multiset(s)| == |s|;
  }

  lemma WindowContents(nameSearch: Option<string>, segments: seq<Segment>, skip: nat, limit: nat)
    ensures PageContents(segments, nameSearch, Window(SortByIdDescending(MatchByName(nameSearch, segments)), skip, limit))
  {
    var matches := MatchByName(nameSearch, segments);
    var sorted := SortByIdDescending(matches);
    if DistinctIds(segments) {
      DistinctIdsFiltered(nameSearch, segments);
    }
    WindowKeepsOrder(sorted, skip, limit);
    WindowHoldsMatches(nameSearch, segments, sorted, skip, limit);
  }

  lemma WindowKeepsOrder(sorted: seq<Segment>, skip: nat, limit: nat)
    requires ByIdDescending(sorted)
    ensures ByIdDescending(Window(sorted, skip, limit))
    ensures StrictlyByIdDescending(sorted) ==> StrictlyByIdDescending(Window(sorted, skip, limit))
  {
    var page := Window(sorted, skip, limit);
    forall i, j | 0 <= i < j < |page|
      ensures page[i].id >= page[j].id
      ensures StrictlyByIdDescending(sorted) ==> page[i].id > page[j].id
    {
      assert page[i] == sorted[skip + i] && page[j] == sorted[skip + j];
    }
  }

  lemma WindowHoldsMatches(nameSearch: Option<string>, segments: seq<Segment>, sorted: seq<Segment>, skip: nat, limit: nat)
    requires multiset(sorted) == multiset(MatchByName(nameSearch, segments))
    ensures forall s :: s in Window(sorted, skip, limit) ==> s in segments && NameMatches(nameSearch, s.name)
  {
    var page := Window(sorted, skip, limit);
    forall s | s in page
      ensures s in segments && NameMatches(nameSearch, s.name)
    {
      var i :| 0 <= i < |page| && page[i] == s;
      assert sorted[skip + i] in multiset(sorted);
      assert s in multiset(MatchByName(nameSearch, segments));
    }
  }

  lemma DistinctIdsFiltered(nameSearch: Option<string>, segments: seq<Segment>)
    requires DistinctIds(segments)
    ensures DistinctIds(MatchByName(nameSearch, segments))
  {
    FilterKeepsPairwise(NameFilter(nameSearch), (x: Segment, y: Segment) => x.id != y.id, segments);
  }

  /** The total does not depend on the window: for any two valid windows
      the finder succeeds for both or for neither, with the same total. */
  lemma TotalCountIgnoresWindow(segments: seq<Segment>, nameSearch: Option<string>,
                                skip1: int, limit1: int, skip2: int, limit2: int)
    requires 0 <= skip1 && 1 <= limit1 && 0 <= skip2 && 1 <= limit2
    ensures FindSegments(segments, skip1, limit1, nameSearch).Success?
        <==> FindSegments(segments, skip2, limit2, nameSearch).Success?
    ensures FindSegments(segments, skip1, limit1, nameSearch).Success? ==>
      FindSegments(segments, skip2, limit2, nameSearch).value.totalCount
        == FindSegments(segments, skip1, limit1, nameSearch).value.totalCount
  {
  }

  /** Walking the pages as the list view does (`skip = page * size`,
      `limit = size`) returns the matches newest first, each exactly once. */
  lemma PagingCoversMatches(segments: seq<Segment>, nameSearch: Option<string>, size: nat, count: nat)
    requires 1 <= size
    ensures count * size >= |MatchByName(nameSearch, segments)| ==>
      Pages(SortByIdDescending(MatchByName(nameSearch, segments)), size, count)
        == SortByIdDescending(MatchByName(nameSearch, segments))
  {
    var sorted := SortByIdDescending(MatchByName(nameSearch, segments));
    if count * size >= |MatchByName(nameSearch, segments)| {
      assert |sorted| == |multiset(sorted)|;
      PagesCoverPrefix(sorted, size, count);
      assert Window(sorted, 0, count * size) == sorted;
    }
  }
}
