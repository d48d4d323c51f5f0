/** Per-segment statistics: the users of a segment, their count, their mean
    annualised income and their dominant gender, and the enrichment of a page
    of segments with these statistics. */
module SegmentStats {
  import opened Wrappers
  import opened SegmentModels
  import opened Sequences

  /** `_matchSegmentUsersStage`: a user belongs to a segment when the
      segment's id is among the user's segment ids. */
  function InSegment(id: SegmentId): User -> bool
  {
    (u: User) => id in u.segmentIds
  }

  /** The users the `$match` stage lets through, in store order. */
  function Members(users: seq<User>, id: SegmentId): (r: seq<User>)
    ensures forall u :: u in r <==> u in users && id in u.segmentIds
    ensures forall u :: multiset(r)[u] == if id in u.segmentIds then multiset(users)[u] else 0
  {
    Filter(InSegment(id), users)
  }

  // ---------------------------------------------------------------------
  // Grouping by gender

  /** The number of users of gender `g`. */
  function CountGender(users: seq<User>, g: Gender): nat
  {
    if |users| == 0 then 0
    else CountGender(users[..|users| - 1], g) + (if users[|users| - 1].gender == g then 1 else 0)
  }

  /** The total of the counts over all rows. */
  function SumCounts(rows: seq<GenderUserCount>): nat
  {
    if |rows| == 0 then 0 else rows[0].userCount + SumCounts(rows[1..])
  }

  /** The total of the counts over the rows for gender `g`. */
  function CountOf(rows: seq<GenderUserCount>, g: Gender): nat
  {
    if |rows| == 0 then 0
    else (if rows[0].gender == g then rows[0].userCount else 0) + CountOf(rows[1..], g)
  }

  /** The genders that have a row. */
  function Genders(rows: seq<GenderUserCount>): set<Gender>
  {
    set i | 0 <= i < |rows| :: rows[i].gender
  }

  ghost predicate DistinctGenders(rows: seq<GenderUserCount>)
  {
    forall i, j :: 0 <= i < j < |rows| ==> rows[i].gender != rows[j].gender
  }

  /** What a `$group` by gender with `$sum: 1` may return for `users`, in
      any row order: one row per gender, each row counting the users of its
      gender, and no row for a gender no user has. */
  ghost predicate IsGenderGrouping(users: seq<User>, rows: seq<GenderUserCount>)
  {
    && DistinctGenders(rows)
    && (forall i :: 0 <= i < |rows| ==> rows[i].userCount >= 1)
    && (forall g :: CountOf(rows, g) == CountGender(users, g))
  }

  /** `r` is `rows` with one more user `u` counted: the user's gender gains
      a row if it had none, its count goes up by one, no other count moves,
      and one row per gender and positive counts are kept. */
  ghost predicate CountsOneMore(rows: seq<GenderUserCount>, u: User, r: seq<GenderUserCount>)
  {
    && Genders(r) == Genders(rows) + {u.gender}
    && (DistinctGenders(rows) ==> DistinctGenders(r))
    && ((forall i :: 0 <= i < |rows| ==> rows[i].userCount >= 1) ==> forall i :: 0 <= i < |r| ==> r[i].userCount >= 1)
    && (forall g :: CountOf(r, g) == CountOf(rows, g) + (if g == u.gender then 1 else 0))
    && SumCounts(r) == SumCounts(rows) + 1
  }

  /** Count one more user: bump the row of the user's gender, or append a
      new row for it. */
  function AddUser(rows: seq<GenderUserCount>, u: User): (r: seq<GenderUserCount>)
    ensures CountsOneMore(rows, u, r)
  {
    if |rows| == 0 then
      var r := [GenderUserCount(u.gender, 1)];
      assert r[0].gender == u.gender && r[1..] == [];
      r
    else if rows[0].gender == u.gender then
      BumpCountsOneMore(rows, u);
      [rows[0].(userCount := rows[0].userCount + 1)] + rows[1..]
    else
      var rest := AddUser(rows[1..], u);
      ConsCountsOneMore(rows, u, rest);
      [rows[0]] + rest
  }

  lemma BumpCountsOneMore(rows: seq<GenderUserCount>, u: User)
    requires 0 < |rows| && rows[0].gender == u.gender
    ensures CountsOneMore(rows, u, [rows[0].(userCount := rows[0].userCount + 1)] + rows[1..])
  {
    var r := [rows[0].(userCount := rows[0].userCount + 1)] + rows[1..];
    GendersOfCons(rows);
    assert r[1..] == rows[1..];
    GendersOfCons(r);
  }

  lemma ConsCountsOneMore(rows: seq<GenderUserCount>, u: User, rest: seq<GenderUserCount>)
    requires 0 < |rows| && rows[0].gender != u.gender
    requires CountsOneMore(rows[1..], u, rest)
    ensures CountsOneMore(rows, u, [rows[0]] + rest)
  {
    ConsKeepsGenders(rows, u, rest);
    ConsKeepsCounts(rows, u, rest);
  }

  lemma ConsKeepsGenders(rows: seq<GenderUserCount>, u: User, rest: seq<GenderUserCount>)
    requires 0 < |rows| && rows[0].gender != u.gender
    requires Genders(rest) == Genders(rows[1..]) + {u.gender}
    requires DistinctGenders(rows[1..]) ==> DistinctGenders(rest)
    ensures Genders([rows[0]] + rest) == Genders(rows) + {u.gender}
    ensures DistinctGenders(rows) ==> DistinctGenders([rows[0]] + rest)
  {
    var r := [rows[0]] + rest;
    GendersOfCons(rows);
    assert r[1..] == rest;
    GendersOfCons(r);
  }

  lemma ConsKeepsCounts(rows: seq<GenderUserCount>, u: User, rest: seq<GenderUserCount>)
    requires 0 < |rows| && rows[0].gender != u.gender
    requires (forall i :: 0 <= i < |rows[1..]| ==> rows[1..][i].userCount >= 1) ==> forall i :: 0 <= i < |rest| ==> rest[i].userCount >= 1
    requires forall g :: CountOf(rest, g) == CountOf(rows[1..], g) + (if g == u.gender then 1 else 0)
    requires SumCounts(rest) == SumCounts(rows[1..]) + 1
    ensures (forall i :: 0 <= i < |rows| ==> rows[i].userCount >= 1) ==> forall i :: 0 <= i < |[rows[0]] + rest| ==> ([rows[0]] + rest)[i].userCount >= 1
    ensures forall g :: CountOf([rows[0]] + rest, g) == CountOf(rows, g) + (if g == u.gender then 1 else 0)
    ensures SumCounts([rows[0]] + rest) == SumCounts(rows) + 1
  {
    var r := [rows[0]] + rest;
    assert r[1..] == rest;
    assert forall i :: 0 < i < |r| ==> r[i] == rest[i - 1];
    assert forall i :: 0 <= i < |rows| - 1 ==> rows[1..][i] == rows[i + 1];
  }

  lemma GendersOfCons(rows: seq<GenderUserCount>)
    requires 0 < |rows|
    ensures Genders(rows) == {rows[0].gender} + Genders(rows[1..])
    ensures (DistinctGenders(rows[1..]) && rows[0].gender !in Genders(rows[1..])) <==> DistinctGenders(rows)
  {
    assert forall i :: 0 < i < |rows| ==> rows[i] == rows[1..][i - 1];
    assert forall i :: 0 <= i < |rows| - 1 ==> rows[1..][i] == rows[i + 1];
  }

  /** `_genderUserCountStage`, with rows in order of each gender's first
      appearance among `users`. */
  function GroupByGender(users: seq<User>): (rows: seq<GenderUserCount>)
    ensures IsGenderGrouping(users, rows)
    ensures SumCounts(rows) == |users|
  {
    if |users| == 0 then []
    else AddUser(GroupByGender(users[..|users| - 1]), users[|users| - 1])
  }

  lemma {:induction false} NoRowMeansNoCount(rows: seq<GenderUserCount>, g: Gender)
    ensures g !in Genders(rows) ==> CountOf(rows, g) == 0
  {
    if |rows| > 0 {
      GendersOfCons(rows);
      NoRowMeansNoCount(rows[1..], g);
    }
  }

  /** With one row per gender, a row's count is all the count its gender has. */
  lemma {:induction false} RowCountIsCountOf(rows: seq<GenderUserCount>, j: nat)
    requires DistinctGenders(rows) && j < |rows|
    ensures CountOf(rows, rows[j].gender) == rows[j].userCount
  {
    GendersOfCons(rows);
    if j == 0 {
      NoRowMeansNoCount(rows[1..], rows[0].gender);
    } else {
      RowCountIsCountOf(rows[1..], j - 1);
      assert rows[1..][j - 1] == rows[j];
      assert rows[0].gender != rows[j].gender;
    }
  }

  /** What a grouping says about each gender, whatever the order of its rows:
      each row holds the number of users of its gender, a gender has a row
      exactly when some user has it, and there are rows exactly when there
      are users. */
  lemma GroupingFacts(users: seq<User>, rows: seq<GenderUserCount>)
    requires IsGenderGrouping(users, rows)
    ensures forall j :: 0 <= j < |rows| ==> rows[j].userCount == CountGender(users, rows[j].gender)
    ensures forall g :: g in Genders(rows) <==> CountGender(users, g) >= 1
    ensures |rows| == 0 <==> |users| == 0
  {
    forall j | 0 <= j < |rows|
      ensures rows[j].userCount == CountGender(users, rows[j].gender)
    {
      RowCountIsCountOf(rows, j);
    }
    forall g
      ensures g in Genders(rows) <==> CountGender(users, g) >= 1
    {
      NoRowMeansNoCount(rows, g);
      if g in Genders(rows) {
        var j :| 0 <= j < |rows| && rows[j].gender == g;
        RowCountIsCountOf(rows, j);
      }
    }
    if |users| > 0 {
      var g := users[|users| - 1].gender;
      assert CountGender(users, g) >= 1;
      assert g in Genders(rows);
    }
    if |rows| > 0 {
      assert rows[0].gender in Genders(rows);
    }
  }

  /** The users whose gender is not `g0`, in order. */
  function WithoutGender(users: seq<User>, g0: Gender): seq<User>
  {
    if |users| == 0 then []
    else
      var last := users[|users| - 1];
      WithoutGender(users[..|users| - 1], g0) + (if last.gender != g0 then [last] else [])
  }

  /** Setting aside the users of one gender removes exactly that gender's
      users and leaves the counts of the other genders alone. */
  lemma {:induction false} CountWithoutGender(users: seq<User>, g0: Gender, g: Gender)
    ensures |users| == CountGender(users, g0) + |WithoutGender(users, g0)|
    ensures CountGender(WithoutGender(users, g0), g) == if g == g0 then 0 else CountGender(users, g)
  {
    if |users| > 0 {
      var front, last := users[..|users| - 1], users[|users| - 1];
      CountWithoutGender(front, g0, g);
      var rest := WithoutGender(front, g0);
      if last.gender != g0 {
        assert (rest + [last])[..|rest|] == rest;
      } else {
        assert rest + [] == rest;
      }
    }
  }

  /** The counts of any grouping add up to the number of users, whichever
      order the store lists the rows in. */
  lemma {:induction false} GroupingCountsSumToUsers(users: seq<User>, rows: seq<GenderUserCount>)
    requires IsGenderGrouping(users, rows)
    ensures SumCounts(rows) == |users|
    decreases |rows|
  {
    if |rows| == 0 {
      GroupingFacts(users, rows);
    } else {
      var g0 := rows[0].gender;
      var others := WithoutGender(users, g0);
      CountWithoutGender(users, g0, g0);
      GendersOfCons(rows);
      RowCountIsCountOf(rows, 0);
      forall g
        ensures CountOf(rows[1..], g) == CountGender(others, g)
      {
        CountWithoutGender(users, g0, g);
        if g == g0 {
          NoRowMeansNoCount(rows[1..], g);
        }
      }
      assert forall i :: 0 <= i < |rows[1..]| ==> rows[1..][i] == rows[i + 1];
      GroupingCountsSumToUsers(others, rows[1..]);
    }
  }

  // ---------------------------------------------------------------------
  // Dominant gender

  /** The index lodash `maxBy` picks: it scans left to right and moves only
      on a strictly larger count, so it stops at the first maximum. */
  function FirstMaxIndex(rows: seq<GenderUserCount>): (k: nat)
    requires 0 < |rows|
    ensures k < |rows|
    ensures forall j :: 0 <= j < |rows| ==> rows[j].userCount <= rows[k].userCount
    ensures forall j :: 0 <= j < k ==> rows[j].userCount < rows[k].userCount
  {
    if |rows| == 1 then 0
    else
      var k := FirstMaxIndex(rows[..|rows| - 1]);
      if rows[|rows| - 1].userCount > rows[k].userCount then |rows| - 1 else k
  }

  /** `_getTopGender`: no gender for no rows, otherwise the gender of the
      first row with the largest count. */
  function TopGender(rows: seq<GenderUserCount>): (r: Option<Gender>)
    ensures r.None? <==> |rows| == 0
    ensures r.Some? ==> exists k :: (
      && 0 <= k < |rows| && rows[k].gender == r.value
      && (forall j :: 0 <= j < |rows| ==> rows[j].userCount <= rows[k].userCount)
      && (forall j :: 0 <= j < k ==> rows[j].userCount < rows[k].userCount))
  {
    if |rows| == 0 then None else Some(rows[FirstMaxIndex(rows)].gender)
  }

  /** Over any grouping of the users, the top gender is absent exactly when
      there are no users, and otherwise no gender has more users than it. */
  lemma TopGenderIsDominant(users: seq<User>, rows: seq<GenderUserCount>)
    requires IsGenderGrouping(users, rows)
    ensures TopGender(rows).None? <==> |users| == 0
    ensures TopGender(rows).Some? ==> forall g :: CountGender(users, g) <= CountGender(users, TopGender(rows).value)
  {
    GroupingFacts(users, rows);
    if |rows| > 0 {
      var k := FirstMaxIndex(rows);
      forall g
        ensures CountGender(users, g) <= CountGender(users, rows[k].gender)
      {
        if g in Genders(rows) {
          var j :| 0 <= j < |rows| && rows[j].gender == g;
        }
      }
    }
  }

  // ---------------------------------------------------------------------
  // Income

  /** Income on a yearly basis: monthly income times twelve, yearly as is. */
  function AnnualIncome(u: User): int
  {
    if u.incomeType == Monthly then u.incomeLevel * 12 else u.incomeLevel
  }

  function SumAnnualIncome(users: seq<User>): int
  {
    if |users| == 0 then 0 else AnnualIncome(users[0]) + SumAnnualIncome(users[1..])
  }

  function SumIncomeLevels(users: seq<User>): int
  {
    if |users| == 0 then 0 else users[0].incomeLevel + SumIncomeLevels(users[1..])
  }

  /** The `$avg` of the annualised incomes. */
  function AvgIncome(users: seq<User>): (avg: real)
    requires 0 < |users|
    ensures avg * (|users| as real) == SumAnnualIncome(users) as real
  {
    SumAnnualIncome(users) as real / |users| as real
  }

  lemma {:induction false} SumWithinBounds(users: seq<User>, lo: int, hi: int)
    requires forall k :: 0 <= k < |users| ==> lo <= AnnualIncome(users[k]) <= hi
    ensures lo * |users| <= SumAnnualIncome(users) <= hi * |users|
  {
    if |users| > 0 {
      SumWithinBounds(users[1..], lo, hi);
      assert AnnualIncome(users[0]) <= hi;
    }
  }

  /** The average lies between the smallest and the largest annualised income. */
  lemma AvgWithinIncomes(users: seq<User>, lo: int, hi: int)
    requires 0 < |users|
    requires forall k :: 0 <= k < |users| ==> lo <= AnnualIncome(users[k]) <= hi
    ensures lo as real <= AvgIncome(users) <= hi as real
  {
    var total := SumAnnualIncome(users);
    SumWithinBounds(users, lo, hi);
    ProductAsReal(lo, |users|);
    ProductAsReal(hi, |users|);
    QuotientBounds(total as real, |users| as real, lo as real, hi as real);
  }

  lemma ProductAsReal(a: int, n: nat)
    ensures (a * n) as real == a as real * n as real
  {
  }

  lemma QuotientBounds(total: real, n: real, lo: real, hi: real)
    requires 0.0 < n && lo * n <= total <= hi * n
    ensures lo <= total / n <= hi
  {
    assert total / n * n == total;
  }

  lemma {:induction false} MonthlySumIsTwelveTimes(users: seq<User>)
    requires forall k :: 0 <= k < |users| ==> users[k].incomeType == Monthly
    ensures SumAnnualIncome(users) == 12 * SumIncomeLevels(users)
  {
    if |users| > 0 {
      MonthlySumIsTwelveTimes(users[1..]);
    }
  }

  /** When every income is monthly, the average is twelve times the mean
      income level. */
  lemma AllMonthlyAverage(users: seq<User>)
    requires 0 < |users|
    requires forall k :: 0 <= k < |users| ==> users[k].incomeType == Monthly
    ensures AvgIncome(users) == 12.0 * (SumIncomeLevels(users) as real / |users| as real)
  {
    var levels := SumIncomeLevels(users);
    MonthlySumIsTwelveTimes(users);
    ProductAsReal(levels, 12);
    assert SumAnnualIncome(users) as real == 12.0 * levels as real;
    assert AvgIncome(users) == (12.0 * levels as real) / |users| as real;
    ScaledQuotient(12.0, levels as real, |users| as real);
    assert (12.0 * levels as real) / |users| as real == 12.0 * (levels as real / |users| as real);
  }

  lemma ScaledQuotient(k: real, x: real, n: real)
    requires 0.0 < n
    ensures (k * x) / n == k * (x / n)
  {
    assert (x / n) * n == x;
  }

  // ---------------------------------------------------------------------
  // Per-segment metadata and enrichment

  /** Some user belongs to the segment. */
  predicate HasMembers(users: seq<User>, id: SegmentId)
  {
    |Members(users, id)| > 0
  }

  lemma MembersExistIffHasMembers(users: seq<User>, id: SegmentId)
    ensures HasMembers(users, id) <==> exists u :: u in users && id in u.segmentIds
  {
    var members := Members(users, id);
    if |members| > 0 {
      assert members[0] in members;
    }
  }

  /** `_getSegmentUsersMetadata`: both facets run over the segment's users.
      With no users the metadata facet is empty and reading its first row
      fails; otherwise the count, the mean annualised income and the top
      gender of the grouping are returned. */
  function SegmentUsersMetadata(users: seq<User>, id: SegmentId): (r: Result<SegmentUsersMetaData, Error>)
    ensures r.Failure? <==> forall u :: u in users ==> id !in u.segmentIds
    ensures r.Failure? <==> !HasMembers(users, id)
    ensures r.Failure? ==> r.error == NoMetadataRow
    ensures r.Success? ==>
      var members := Members(users, id);
      && r.value.userCount == |members| >= 1
      && r.value.avgIncome == AvgIncome(members)
      && r.value.topGender.Some?
      && forall g :: CountGender(members, g) <= CountGender(members, r.value.topGender.value)
  {
    var members := Members(users, id);
    MembersExistIffHasMembers(users, id);
    if |members| == 0 then Failure(NoMetadataRow)
    else
      var rows := GroupByGender(members);
      TopGenderIsDominant(members, rows);
      Success(SegmentUsersMetaData(|members|, AvgIncome(members), TopGender(rows)))
  }

  /** One segment of the page with its statistics spread into it. */
  function EnrichSegment(segment: Segment, users: seq<User>): (r: Result<SegmentMetaData, Error>)
    ensures r.Failure? <==> !HasMembers(users, segment.id)
    ensures r.Failure? ==> r.error == NoMetadataRow
    ensures r.Success? ==> r.value.segment == segment && SegmentUsersMetadata(users, segment.id) == Success(r.value.usersMetaData)
  {
    match SegmentUsersMetadata(users, segment.id)
    case Failure(e) => Failure(e)
    case Success(m) => Success(SegmentMetaData(segment, m))
  }

  lemma EachResultSucceedsIffMembers(segments: seq<Segment>, users: seq<User>, results: seq<Result<SegmentMetaData, Error>>)
    requires |results| == |segments|
    requires forall i :: 0 <= i < |segments| ==> results[i] == EnrichSegment(segments[i], users)
    ensures (forall i :: 0 <= i < |results| ==> results[i].Success?) <==> (forall i :: 0 <= i < |segments| ==> HasMembers(users, segments[i].id))
  {
  }

  /** `_lookupSegmentsMetadata`: every segment of the page with its own
      statistics, in page order. The segments are looked up independently
      and the fan-out fails as a whole when one of them fails. */
  function LookupSegmentsMetadata(segments: seq<Segment>, users: seq<User>): (r: Result<seq<SegmentMetaData>, Error>)
    ensures r.Success? <==> forall i :: 0 <= i < |segments| ==> HasMembers(users, segments[i].id)
    ensures r.Failure? ==> r.error == NoMetadataRow
    ensures r.Success? ==> |r.value| == |segments| && forall i :: 0 <= i < |segments| ==>
      r.value[i].segment == segments[i] && SegmentUsersMetadata(users, segments[i].id) == Success(r.value[i].usersMetaData)
  {
    var results := seq(|segments|, i requires 0 <= i < |segments| => EnrichSegment(segments[i], users));
    JoinedLookups(segments, users, results);
    AllSucceed(results)
  }

  lemma JoinedLookups(segments: seq<Segment>, users: seq<User>, results: seq<Result<SegmentMetaData, Error>>)
    requires |results| == |segments|
    requires forall i :: 0 <= i < |segments| ==> results[i] == EnrichSegment(segments[i], users)
    ensures AllSucceed(results).Success? <==> forall i :: 0 <= i < |segments| ==> HasMembers(users, segments[i].id)
    ensures AllSucceed(results).Failure? ==> AllSucceed(results).error == NoMetadataRow
    ensures AllSucceed(results).Success? ==> |AllSucceed(results).value| == |segments| && forall i :: 0 <= i < |segments| ==>
      AllSucceed(results).value[i].segment == segments[i]
      && SegmentUsersMetadata(users, segments[i].id) == Success(AllSucceed(results).value[i].usersMetaData)
  {
    var r := AllSucceed(results);
    EachResultSucceedsIffMembers(segments, users, results);
    if r.Failure? {
      var i :| 0 <= i < |results| && results[i] == Failure(r.error);
      assert EnrichSegment(segments[i], users).Failure?;
    } else {
      forall i | 0 <= i < |segments|
        ensures r.value[i].segment == segments[i]
        ensures SegmentUsersMetadata(users, segments[i].id) == Success(r.value[i].usersMetaData)
      {
        assert results[i] == Success(r.value[i]);
      }
    }
  }
}
