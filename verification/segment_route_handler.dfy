/** The two read endpoints, composed from the finder, the statistics and
    the distribution, with the request and response plumbing left out. */
module SegmentRouteHandler {
  import opened Wrappers
  import opened SegmentModels
  import opened SegmentFinder
  import opened SegmentStats
  import opened GenderDistribution

  /** `segmentList`: find the page, then enrich each of its segments. Any
      failure of either step fails the request. */
  function SegmentList(segments: seq<Segment>, users: seq<User>, skip: int, limit: int, nameSearch: Option<string>)
    : (r: Result<SegmentListResponse, Error>)
    ensures FindSegments(segments, skip, limit, nameSearch).Failure? ==>
      r == Failure(FindSegments(segments, skip, limit, nameSearch).error)
    ensures FindSegments(segments, skip, limit, nameSearch).Success? ==>
      var found := FindSegments(segments, skip, limit, nameSearch).value;
      && (r.Success? <==> forall i :: 0 <= i < |found.segments| ==> HasMembers(users, found.segments[i].id))
      && (r.Failure? ==> r.error == NoMetadataRow)
      && (r.Success? ==>
        && r.value.totalCount == found.totalCount
        && |r.value.data| == |found.segments|
        && forall i :: 0 <= i < |found.segments| ==>
             r.value.data[i].segment == found.segments[i]
             && SegmentUsersMetadata(users, found.segments[i].id) == Success(r.value.data[i].usersMetaData))
  {
    match FindSegments(segments, skip, limit, nameSearch)
    case Failure(e) => Failure(e)
    case Success(found) =>
      match LookupSegmentsMetadata(found.segments, users)
      case Failure(e) => Failure(e)
      case Success(data) => Success(SegmentListResponse(data, found.totalCount))
  }

  /** `_getGendersUserCount`: the gender grouping of the segment's users. */
  function GendersUserCount(users: seq<User>, id: SegmentId): (rows: seq<GenderUserCount>)
    ensures IsGenderGrouping(Members(users, id), rows)
    ensures SumCounts(rows) == |Members(users, id)|
  {
    GroupByGender(Members(users, id))
  }

  /** `d` is the entry of a Male or Female gender among `members`: it counts
      the members of its gender, and its share is that count over the Male
      and Female members together, in tenths of a percent rounded half up. */
  ghost predicate IsMemberShare(members: seq<User>, d: SegmentGenderData)
  {
    && (d.gender == Male || d.gender == Female)
    && d.userCount == CountGender(members, d.gender)
    && d.userPercentageTenths <= 1000
    && RoundsTo(d.userCount, CountGender(members, Male) + CountGender(members, Female), d.userPercentageTenths)
  }

  /** `getSegmentGenderData`: the Male and Female rows of the segment's
      grouping with their shares. A row is there exactly when the segment has
      users of that gender, it counts them, and the shares add up to 100.0
      (100.1 when both round up from a half). */
  function GetSegmentGenderData(users: seq<User>, id: SegmentId): (r: seq<SegmentGenderData>)
    ensures |r| <= 2
    ensures forall i :: 0 <= i < |r| ==> IsMemberShare(Members(users, id), r[i])
    ensures forall g :: g == Male || g == Female ==>
      ((exists i :: 0 <= i < |r| && r[i].gender == g) <==> CountGender(Members(users, id), g) >= 1)
    ensures |r| == 1 ==> r[0].userPercentageTenths == 1000
    ensures |r| == 2 ==> 1000 <= r[0].userPercentageTenths + r[1].userPercentageTenths <= 1001
  {
    var rows := GendersUserCount(users, id);
    var r := GenderShares(rows);
    SharesOfMembers(Members(users, id), rows, r);
    r
  }

  lemma SharesOfMembers(members: seq<User>, rows: seq<GenderUserCount>, r: seq<SegmentGenderData>)
    requires IsGenderGrouping(members, rows)
    requires r == GenderShares(rows)
    ensures |r| <= 2
    ensures forall i :: 0 <= i < |r| ==> IsMemberShare(members, r[i])
    ensures forall g :: g == Male || g == Female ==>
      ((exists i :: 0 <= i < |r| && r[i].gender == g) <==> CountGender(members, g) >= 1)
    ensures |r| == 1 ==> r[0].userPercentageTenths == 1000
    ensures |r| == 2 ==> 1000 <= r[0].userPercentageTenths + r[1].userPercentageTenths <= 1001
  {
    GroupingFacts(members, rows);
    SharesAddUp(rows);
    KeptRowsAreTheGroupRows(rows, r);
    forall i | 0 <= i < |r|
      ensures r[i].userCount == CountGender(members, r[i].gender)
    {
      var row := GenderUserCount(r[i].gender, r[i].userCount);
      var j :| 0 <= j < |rows| && rows[j] == row;
    }
    SharesOfMaleFemale(members, rows, r);
    forall i | 0 <= i < |r|
      ensures IsMemberShare(members, r[i])
    {
    }
  }

  /** Each share is rounded against the number of Male and Female members,
      whatever the other genders count. */
  lemma SharesOfMaleFemale(members: seq<User>, rows: seq<GenderUserCount>, r: seq<SegmentGenderData>)
    requires IsGenderGrouping(members, rows)
    requires r == GenderShares(rows)
    ensures forall i :: 0 <= i < |r| ==>
      RoundsTo(r[i].userCount, CountGender(members, Male) + CountGender(members, Female),
               r[i].userPercentageTenths)
  {
    KeptTotal(rows);
    assert CountOf(rows, Male) == CountGender(members, Male);
    assert CountOf(rows, Female) == CountGender(members, Female);
    SharesAgainst(rows, r, CountGender(members, Male) + CountGender(members, Female));
  }

  lemma SharesAgainst(rows: seq<GenderUserCount>, r: seq<SegmentGenderData>, total: nat)
    requires forall i :: 0 <= i < |rows| ==> rows[i].userCount >= 1
    requires r == GenderShares(rows)
    requires total == SumCounts(KeepMaleFemale(rows))
    ensures forall i :: 0 <= i < |r| ==> RoundsTo(r[i].userCount, total, r[i].userPercentageTenths)
  {
  }

  /** A distribution row is there for a Male or Female gender exactly when
      the grouping has a row for it, and it carries that row's count. */
  lemma KeptRowsAreTheGroupRows(rows: seq<GenderUserCount>, r: seq<SegmentGenderData>)
    requires forall i :: 0 <= i < |rows| ==> rows[i].userCount >= 1
    requires r == GenderShares(rows)
    ensures forall i :: 0 <= i < |r| ==> GenderUserCount(r[i].gender, r[i].userCount) in rows
    ensures forall g :: g == Male || g == Female ==> (g in Genders(rows) <==> exists i :: 0 <= i < |r| && r[i].gender == g)
  {
    var kept := KeepMaleFemale(rows);
    forall g | g == Male || g == Female
      ensures g in Genders(rows) <==> exists i :: 0 <= i < |r| && r[i].gender == g
    {
      GroupRowIsShared(rows, r, g);
      SharedRowIsGrouped(rows, r, g);
    }
    forall i | 0 <= i < |r|
      ensures GenderUserCount(r[i].gender, r[i].userCount) in rows
    {
      assert kept[i] in kept;
      assert kept[i] == GenderUserCount(r[i].gender, r[i].userCount);
    }
  }

  lemma GroupRowIsShared(rows: seq<GenderUserCount>, r: seq<SegmentGenderData>, g: Gender)
    requires forall i :: 0 <= i < |rows| ==> rows[i].userCount >= 1
    requires r == GenderShares(rows)
    requires g == Male || g == Female
    ensures g in Genders(rows) ==> exists i :: 0 <= i < |r| && r[i].gender == g
  {
    if g in Genders(rows) {
      var kept := KeepMaleFemale(rows);
      var j :| 0 <= j < |rows| && rows[j].gender == g;
      assert rows[j] in kept;
      var i :| 0 <= i < |kept| && kept[i] == rows[j];
      assert r[i].gender == g;
    }
  }

  lemma SharedRowIsGrouped(rows: seq<GenderUserCount>, r: seq<SegmentGenderData>, g: Gender)
    requires forall i :: 0 <= i < |rows| ==> rows[i].userCount >= 1
    requires r == GenderShares(rows)
    ensures (exists i :: 0 <= i < |r| && r[i].gender == g) ==> g in Genders(rows)
  {
    if exists i :: 0 <= i < |r| && r[i].gender == g {
      var kept := KeepMaleFemale(rows);
      var i :| 0 <= i < |r| && r[i].gender == g;
      assert kept[i] in rows;
      var j :| 0 <= j < |rows| && rows[j] == kept[i];
    }
  }
}
