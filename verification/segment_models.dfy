/** The records the segment read path works on: the stored segments and
    users, and the shapes of the rows the aggregation stages produce. */
module SegmentModels {
  import opened Wrappers

  /** A store identifier. Identifiers are assigned increasingly over time,
      so a larger identifier means a more recently created document. */
  type SegmentId = nat

  /** A named grouping of users. */
  datatype Segment = Segment(id: SegmentId, name: string)

  /** The user's gender. Values other than Male and Female are kept apart by
      their tag, so grouping treats each tag as its own gender. */
  datatype Gender = Male | Female | Other(tag: string)

  datatype IncomeType = Monthly | Yearly

  /** A stored user: only the fields the read path looks at. */
  datatype User = User(
    gender: Gender,
    incomeLevel: int,
    incomeType: IncomeType,
    segmentIds: seq<SegmentId>)

  /** One row of the group-by-gender stage. */
  datatype GenderUserCount = GenderUserCount(gender: Gender, userCount: nat)

  /** The statistics derived for one segment. */
  datatype SegmentUsersMetaData = SegmentUsersMetaData(
    userCount: nat,
    avgIncome: real,
    topGender: Option<Gender>)

  /** A segment together with its derived statistics. */
  datatype SegmentMetaData = SegmentMetaData(
    segment: Segment,
    usersMetaData: SegmentUsersMetaData)

  /** A gender row with its share of the Male and Female members, kept as an
      integer number of tenths of a percent (`523` reads as `52.3`). */
  datatype SegmentGenderData = SegmentGenderData(
    gender: Gender,
    userCount: nat,
    userPercentageTenths: nat)

  /** One page of segments and the number of segments the search matched. */
  datatype FoundSegments = FoundSegments(segments: seq<Segment>, totalCount: nat)

  /** The list endpoint's payload: the enriched page and the match count. */
  datatype SegmentListResponse = SegmentListResponse(data: seq<SegmentMetaData>, totalCount: nat)

  /** The ways the read path fails.
      BadSkip and BadLimit: the store rejects a `$skip` below zero or a
      `$limit` below one. NoCountRow: the count facet is empty, so reading
      its first row fails. NoMetadataRow: the metadata facet is empty, so
      reading its first row fails. */
  datatype Error = BadSkip | BadLimit | NoCountRow | NoMetadataRow
}
