/** The gender distribution of a segment: the Male and Female rows of the
    gender grouping, each with its share of the Male and Female users,
    rounded to one decimal place of a percent. */
module GenderDistribution {
  import opened SegmentModels
  import opened Sequences
  import opened SegmentStats

  /** The rows `getSegmentGenderData` reports on. */
  predicate IsMaleOrFemale(row: GenderUserCount)
  {
    row.gender == Male || row.gender == Female
  }

  /** The Male and Female rows, in their original order. */
  function KeepMaleFemale(rows: seq<GenderUserCount>): (kept: seq<GenderUserCount>)
    ensures forall row :: row in kept <==> row in rows && (row.gender == Male || row.gender == Female)
    ensures forall row :: multiset(kept)[row] == (if row.gender == Male || row.gender == Female then multiset(rows)[row] else 0)
  {
    Filter(IsMaleOrFemale, rows)
  }

  /** The kept rows count exactly the Male and the Female rows' users: the
      shares are taken against that total, not against all users. */
  lemma {:induction false} KeptTotal(rows: seq<GenderUserCount>)
    ensures SumCounts(KeepMaleFemale(rows)) == CountOf(rows, Male) + CountOf(rows, Female)
  {
    if |rows| > 0 {
      var keep := IsMaleOrFemale;
      var head := if keep(rows[0]) then [rows[0]] else [];
      var tail := KeepMaleFemale(rows[1..]);
      FilterHead(keep, rows);
      KeptTotal(rows[1..]);
      if keep(rows[0]) {
        assert (head + tail)[1..] == tail;
      } else {
        assert head + tail == tail;
      }
    }
  }

  /** The kept rows keep their relative order: keeping distributes over
      concatenation. */
  lemma KeepMaleFemaleAppend(a: seq<GenderUserCount>, b: seq<GenderUserCount>)
    ensures KeepMaleFemale(a + b) == KeepMaleFemale(a) + KeepMaleFemale(b)
  {
    FilterAppend(IsMaleOrFemale, a, b);
  }

  /** Rounding `1000 * count / total` half up gives `p`. */
  ghost predicate RoundsTo(count: nat, total: nat, p: int)
  {
    p * (2 * total) <= 2000 * count + total < (p + 1) * (2 * total)
  }

  /** `Math.round(count / total * 1000)`: the share in tenths of a percent,
      rounded half up. The result is the whole number `p` with
      `p <= 1000 * count / total + 1/2 < p + 1`. */
  function PercentageTenths(count: nat, total: nat): (p: nat)
    requires 0 < total
    ensures RoundsTo(count, total, p)
    ensures count <= total ==> p <= 1000
  {
    var p := (2000 * count + total) / (2 * total);
    ShareOfPartAtMostWhole(count, total, p);
    p
  }

  lemma ShareOfPartAtMostWhole(count: nat, total: nat, p: int)
    requires 0 < total && p * (2 * total) <= 2000 * count + total
    ensures count <= total ==> p <= 1000
  {
    if count <= total {
      assert p * (2 * total) <= 2001 * total < 1001 * (2 * total);
      LessAfterScaling(p, 1001, 2 * total);
    }
  }

  lemma LessAfterScaling(a: int, b: int, m: int)
    requires 0 < m && a * m < b * m
    ensures a < b
  {
  }

  lemma {:induction false} CountsBoundedBySum(rows: seq<GenderUserCount>)
    ensures forall i :: 0 <= i < |rows| ==> rows[i].userCount <= SumCounts(rows)
  {
    if |rows| > 0 {
      CountsBoundedBySum(rows[1..]);
      assert forall i :: 0 < i < |rows| ==> rows[i] == rows[1..][i - 1];
    }
  }

  /** The Male/Female filter and rounding of `getSegmentGenderData`: keep
      the Male and Female rows, total their counts, and give each kept row
      its rounded share of that total. Every row of a grouping counts at least one user, so a kept row
      makes the total positive and the share is never a division by zero;
      with no kept row nothing is divided. */
  function GenderShares(rows: seq<GenderUserCount>): (r: seq<SegmentGenderData>)
    requires forall i :: 0 <= i < |rows| ==> rows[i].userCount >= 1
    ensures
      var kept := KeepMaleFemale(rows);
      var total := SumCounts(kept);
      && |r| == |kept|
      && forall i :: 0 <= i < |r| ==>
        && r[i].gender == kept[i].gender
        && r[i].userCount == kept[i].userCount
        && (r[i].gender == Male || r[i].gender == Female)
        && 1 <= r[i].userCount <= total
        && r[i].userPercentageTenths <= 1000
        && RoundsTo(r[i].userCount, total, r[i].userPercentageTenths)
  {
    var kept := KeepMaleFemale(rows);
    var total := SumCounts(kept);
    KeptRowFacts(rows);
    seq(|kept|, i requires 0 <= i < |kept| => ShareOf(kept[i], total))
  }

  /** Every kept row is a Male or Female row counting at least one user and
      at most the kept total. */
  lemma KeptRowFacts(rows: seq<GenderUserCount>)
    requires forall i :: 0 <= i < |rows| ==> rows[i].userCount >= 1
    ensures forall i :: 0 <= i < |KeepMaleFemale(rows)| ==>
      && 1 <= KeepMaleFemale(rows)[i].userCount <= SumCounts(KeepMaleFemale(rows))
      && (KeepMaleFemale(rows)[i].gender == Male || KeepMaleFemale(rows)[i].gender == Female)
  {
    var kept := KeepMaleFemale(rows);
    CountsBoundedBySum(kept);
    forall i | 0 <= i < |kept|
      ensures kept[i].userCount >= 1 && (kept[i].gender == Male || kept[i].gender == Female)
    {
      assert kept[i] in kept;
      var j :| 0 <= j < |rows| && rows[j] == kept[i];
    }
  }

  /** One kept row with its rounded share of `total`. */
  function ShareOf(row: GenderUserCount, total: nat): (d: SegmentGenderData)
    requires 1 <= row.userCount <= total
    ensures d.gender == row.gender && d.userCount == row.userCount
    ensures d.userPercentageTenths <= 1000
    ensures RoundsTo(row.userCount, total, d.userPercentageTenths)
  {
    SegmentGenderData(row.gender, row.userCount, PercentageTenths(row.userCount, total))
  }

  /** The whole is 100.0 percent. */
  lemma WholeShare(count: nat, p: int)
    requires 0 < count && RoundsTo(count, count, p)
    ensures p == 1000
  {
    var t := 2 * count;
    assert p * t < 1001 * t;
    LessAfterScaling(p, 1001, t);
    assert 999 * t < p * t;
    LessAfterScaling(999, p, t);
  }

  /** The rounded shares of two parts add up to 100.0 or 100.1 percent. */
  lemma TwoShares(a: nat, b: nat, p: int, q: int)
    requires 0 < a + b && RoundsTo(a, a + b, p) && RoundsTo(b, a + b, q)
    ensures 1000 <= p + q <= 1001
  {
    var t := 2 * (a + b);
    assert (p + q) * t < 1002 * t;
    LessAfterScaling(p + q, 1002, t);
    assert 999 * t < (p + q) * t;
    LessAfterScaling(999, p + q, t);
  }

  lemma {:induction false} DistinctRowsHaveDistinctGenders(rows: seq<GenderUserCount>)
    requires DistinctGenders(rows)
    ensures |Genders(rows)| == |rows|
  {
    if |rows| > 0 {
      GendersOfCons(rows);
      DistinctRowsHaveDistinctGenders(rows[1..]);
    }
  }

  lemma SubsetNoLarger<T>(a: set<T>, b: set<T>)
    requires a <= b
    ensures |a| <= |b|
  {
    assert b == a + (b - a);
  }

  /** Over rows with one row per gender there are at most two kept rows. */
  lemma AtMostTwoKept(rows: seq<GenderUserCount>)
    requires DistinctGenders(rows)
    ensures |KeepMaleFemale(rows)| <= 2
  {
    var kept := KeepMaleFemale(rows);
    FilterKeepsPairwise(IsMaleOrFemale, (x: GenderUserCount, y: GenderUserCount) => x.gender != y.gender, rows);
    DistinctRowsHaveDistinctGenders(kept);
    assert Genders(kept) <= {Male, Female};
    SubsetNoLarger(Genders(kept), {Male, Female});
  }

  /** Over rows with one row per gender, a single kept row gets 100.0, and
      the shares of two kept rows add up to 100.0, or to 100.1 when both
      round up from exactly half a tenth. */
  lemma SharesAddUp(rows: seq<GenderUserCount>)
    requires forall i :: 0 <= i < |rows| ==> rows[i].userCount >= 1
    requires DistinctGenders(rows)
    ensures |GenderShares(rows)| <= 2
    ensures |GenderShares(rows)| == 1 ==> GenderShares(rows)[0].userPercentageTenths == 1000
    ensures |GenderShares(rows)| == 2 ==>
      1000 <= GenderShares(rows)[0].userPercentageTenths + GenderShares(rows)[1].userPercentageTenths <= 1001
  {
    AtMostTwoKept(rows);
    var r := GenderShares(rows);
    var kept := KeepMaleFemale(rows);
    if |r| == 1 {
      OnlyShare(r, kept);
    } else if |r| == 2 {
      BothShares(r, kept);
    }
  }

  lemma {:induction false} OnlyShare(r: seq<SegmentGenderData>, kept: seq<GenderUserCount>)
    requires |r| == 1 && |kept| == 1
    requires r[0].userCount == kept[0].userCount
    requires kept[0].userCount >= 1
    requires RoundsTo(r[0].userCount, SumCounts(kept), r[0].userPercentageTenths)
    ensures r[0].userPercentageTenths == 1000
  {
    assert SumCounts(kept[1..]) == 0;
    WholeShare(r[0].userCount, r[0].userPercentageTenths);
  }

  lemma {:induction false} BothShares(r: seq<SegmentGenderData>, kept: seq<GenderUserCount>)
    requires |r| == 2 && |kept| == 2
    requires r[0].userCount == kept[0].userCount && r[1].userCount == kept[1].userCount
    requires 0 < SumCounts(kept)
    requires RoundsTo(r[0].userCount, SumCounts(kept), r[0].userPercentageTenths)
    requires RoundsTo(r[1].userCount, SumCounts(kept), r[1].userPercentageTenths)
    ensures 1000 <= r[0].userPercentageTenths + r[1].userPercentageTenths <= 1001
  {
    assert kept[1..][0] == kept[1];
    assert SumCounts(kept[1..][1..]) == 0;
    TwoShares(r[0].userCount, r[1].userCount, r[0].userPercentageTenths, r[1].userPercentageTenths);
  }
}
