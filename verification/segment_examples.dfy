/** Worked scenarios for the read path, each stated on concrete data. */
module SegmentExamples {
  import opened Wrappers
  import opened SegmentModels
  import opened NameSearch
  import opened Sequences
  import opened SegmentFinder
  import opened SegmentStats
  import opened GenderDistribution

  /** "acme" finds "Acme Corp" and "acmesub" but not "Other". */
  lemma AcmeSearch()
    ensures NameMatches(Some("acme"), "Acme Corp")
    ensures NameMatches(Some("acme"), "acmesub")
    ensures !NameMatches(Some("acme"), "Other")
  {
    assert PrefixIgnoringCase("acme", "Acme Corp");
    assert PrefixIgnoringCase("acme", "acmesub");
  }

  /** Pattern characters in the search text match only themselves: ".*"
      finds the segment literally named ".*" and no other. */
  lemma PatternCharactersAreLiteral()
    ensures NameMatches(Some(".*"), ".*")
    ensures !NameMatches(Some(".*"), "abc")
  {
    assert PrefixIgnoringCase(".*", ".*");
  }

  /** Skipping past the matches gives an empty page and the full count. */
  lemma SkipPastTheEnd()
    ensures FindSegments([Segment(1, "a"), Segment(2, "b")], 5, 15, None)
         == Success(FoundSegments([], 2))
  {
    NoSearchKeepsAll(None, [Segment(1, "a"), Segment(2, "b")]);
  }

  /** A search that matches nothing fails instead of reporting zero. */
  lemma NoMatchFails()
    ensures FindSegments([Segment(1, "a")], 0, 15, Some("zzz")) == Failure(NoCountRow)
  {
  }

  /** A segment without users fails the metadata lookup. */
  lemma EmptySegmentFails()
    ensures var users := [User(Male, 10, Yearly, [2])];
      SegmentUsersMetadata(users, 1) == Failure(NoMetadataRow)
  {
    var users := [User(Male, 10, Yearly, [2])];
    assert forall u :: u in users ==> 1 !in u.segmentIds;
  }

  /** Male 30, Female 70, Other 100: the Other row is dropped and the
      shares are 30.0 and 70.0. */
  lemma ThirtySeventy()
    ensures var rows := [GenderUserCount(Male, 30), GenderUserCount(Female, 70), GenderUserCount(Other(""), 100)];
      GenderShares(rows) == [SegmentGenderData(Male, 30, 300), SegmentGenderData(Female, 70, 700)]
  {
    ThirtySeventyOf(GenderUserCount(Male, 30), GenderUserCount(Female, 70), GenderUserCount(Other(""), 100));
  }

  /** Male 30 and Female 70 give 30.0 and 70.0 whatever the Other row
      counts. */
  lemma ThirtySeventyOf(m: GenderUserCount, f: GenderUserCount, o: GenderUserCount)
    requires m == GenderUserCount(Male, 30) && f == GenderUserCount(Female, 70) && o.gender.Other? && o.userCount >= 1
    ensures GenderShares([m, f, o]) == [SegmentGenderData(Male, 30, 300), SegmentGenderData(Female, 70, 700)]
  {
    OtherIsDropped(m, f, o);
    SharesOfThirtySeventy([m, f, o]);
  }

  lemma SharesOfThirtySeventy(rows: seq<GenderUserCount>)
    requires forall i :: 0 <= i < |rows| ==> rows[i].userCount >= 1
    requires KeepMaleFemale(rows) == [GenderUserCount(Male, 30), GenderUserCount(Female, 70)]
    ensures GenderShares(rows) == [SegmentGenderData(Male, 30, 300), SegmentGenderData(Female, 70, 700)]
  {
    var kept := KeepMaleFemale(rows);
    assert SumCounts(kept[1..]) == 70;
    assert SumCounts(kept) == 100;
    var r := GenderShares(rows);
    assert |r| == 2 && r[0].userCount == 30 && r[1].userCount == 70;
    ExactShare(30, 100, r[0].userPercentageTenths, 300);
    ExactShare(70, 100, r[1].userPercentageTenths, 700);
  }

  /** A share that is a whole number of tenths needs no rounding. */
  lemma ExactShare(count: nat, total: nat, p: int, v: int)
    requires 0 < total && 1000 * count == v * total
    requires RoundsTo(count, total, p)
    ensures p == v
  {
    assert p * (2 * total) <= v * (2 * total) + total < (p + 1) * (2 * total);
    LessAfterScaling(v, p + 1, 2 * total);
    LessAfterScaling(p, v + 1, 2 * total);
  }

  /** A Male row, a Female row and a row of another gender: only the first
      two are kept. */
  lemma OtherIsDropped(m: GenderUserCount, f: GenderUserCount, o: GenderUserCount)
    requires m.gender == Male && f.gender == Female && o.gender.Other?
    ensures KeepMaleFemale([m, f, o]) == [m, f]
  {
    FemaleThenOther(f, o);
    var rows := [m, f, o];
    assert rows[1..] == [f, o];
    FilterHead(IsMaleOrFemale, rows);
  }

  lemma FemaleThenOther(f: GenderUserCount, o: GenderUserCount)
    requires f.gender == Female && o.gender.Other?
    ensures Filter(IsMaleOrFemale, [f, o]) == [f]
  {
    OnlyOther(o);
    var rows := [f, o];
    assert rows[1..] == [o];
    FilterHead(IsMaleOrFemale, rows);
  }

  lemma OnlyOther(o: GenderUserCount)
    requires o.gender.Other?
    ensures Filter(IsMaleOrFemale, [o]) == []
  {
    var rows := [o];
    assert rows[1..] == [];
    FilterHead(IsMaleOrFemale, rows);
  }

  /** Male 1, Female 15: 6.25 and 93.75 both round up, to 6.3 and 93.8,
      which add up to 100.1. */
  lemma HalvesRoundUp()
    ensures PercentageTenths(1, 16) == 63 && PercentageTenths(15, 16) == 938
  {
  }

  /** Male 5, Female 3 gives Male; on a tie the earlier row wins. */
  lemma TopGenderTie()
    ensures TopGender([GenderUserCount(Female, 3), GenderUserCount(Male, 5)]) == Some(Male)
    ensures TopGender([GenderUserCount(Female, 3), GenderUserCount(Male, 3)]) == Some(Female)
  {
  }
}
