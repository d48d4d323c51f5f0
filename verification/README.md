# Segment listing and statistics — a Dafny model

This project models the read side of the segment service. Segments are named
groups of users. The service lists segments a page at a time, with an optional
name search. It enriches each listed segment with its number of users, the users'
mean yearly income and their dominant gender. It also reports the Male/Female
split of one segment.

The source builds these results as MongoDB aggregation pipelines. Here each
stage is a pure function over sequences of records:

- `$match` is an order-preserving filter.
- `$sort` is an insertion sort by id, newest first.
- `$skip`/`$limit` is a window.
- `$group` is a gender count and a mean.
- `$facet` reads its first row as a `Result`, so an empty facet is an error.

Modules:

- `SegmentModels`: the records (`Segment`, `User`, `GenderUserCount`, `SegmentUsersMetaData`, `SegmentMetaData`, `SegmentGenderData`) and the error kinds.
- `NameSearch`: the literal, case-insensitive name match.
- `Sequences`: filter, window, paging, and the all-or-nothing collection of independent results.
- `SegmentFinder`: the finder.
- `SegmentStats`: membership, gender grouping, top gender, income average, enrichment.
- `GenderDistribution`: the Male/Female shares.
- `SegmentRouteHandler`: the two endpoints composed.
- `SegmentExamples`: concrete scenarios.

Representation choices:

- Ids are `nat`; a larger id is a newer document.
- Incomes are `int`; the mean is a `real`.
- A percentage is an integer count of tenths of a percent. `(2000*c + t) / (2*t)` equals `Math.round(c/t*1000)` for exact arithmetic. It is characterised by `RoundsTo`: the result `p` satisfies `p <= 1000*c/t + 1/2 < p + 1`.

On these edge cases the model follows the code:

- **Nothing matches the search.** The count facet is empty, so `total[0].count` throws. `FindSegments` returns `Failure(NoCountRow)`; it does not return an empty page with a count of 0.
- **A segment has no users.** The metadata facet is empty, so `metadata.userCount` throws. `SegmentUsersMetadata` returns `Failure(NoMetadataRow)`. Because the per-segment lookups are joined all-or-nothing, one such segment on the page fails the whole list request (`LookupSegmentsMetadata`, `SegmentList`).
- **Ties for the top gender.** They go to the first row with the maximal count, which is what lodash `maxBy` does. The store does not fix the order of `$group` rows. `GroupByGender` lists genders in the order they first appear among the users. The dominance and share properties are proved for every admissible row order (`IsGenderGrouping`).
- **Percentages need not add up to 100.0.** With Male 1 and Female 15 the shares are 6.3 and 93.8, which total 100.1 (`HalvesRoundUp`, `SharesAddUp`).
- **A bad window.** A negative `skip` or a `limit` below 1 passes the input validation, which only checks for integers. The store then rejects the pipeline. This is modelled as `Failure(BadSkip)` / `Failure(BadLimit)`, not as a precondition.

## Model

| member | source | states |
|---|---|---|
| NameSearch.ContainsIgnoringCase | server/src/routes/segments/segment-route-handler.ts:123 | the escaped, case-insensitive pattern matches exactly when the text occurs at some position of the name with letters compared case-insensitively |
| NameSearch.NameMatchesIffOccurs | server/src/routes/segments/segment-route-handler.ts:120-125 | an absent or empty search keeps every name; otherwise a name is kept iff the text occurs in it literally, ignoring case |
| SegmentFinder.MatchByName | server/src/routes/segments/segment-route-handler.ts:120-125 | a segment is among the matches iff it is stored and its name passes the filter, and each matching segment occurs as often as it is stored |
| SegmentFinder.MatchByNameAppend | server/src/routes/segments/segment-route-handler.ts:120-125 | the matches keep the store order: matching a concatenation is matching each part, in order |
| SegmentFinder.NoSearchKeepsAll | server/src/routes/segments/segment-route-handler.ts:120 | without search text no `$match` stage applies and all segments, in order, take part |
| SegmentFinder.SortByIdDescending | server/src/routes/segments/segment-route-handler.ts:131 | the sort returns the same segments (as a multiset) ordered by id descending, strictly when ids are unique |
| SegmentFinder.DescendingOrderIsUnique | server/src/routes/segments/segment-route-handler.ts:131 | with unique ids there is exactly one newest-first arrangement, so the page does not depend on the sorting method |
| Sequences.Window | server/src/routes/segments/segment-route-handler.ts:132-133 | skip-then-limit yields at most `limit` elements, none when skip reaches the end, and element i is element skip+i of the input |
| Sequences.WindowsTile | server/src/routes/segments/segment-route-handler.ts:132-133 | two adjacent windows concatenate to the window spanning both |
| Sequences.PagesCoverPrefix | server/src/routes/segments/segment-route-handler.ts:132-133 | reading pages 0..n-1 of a fixed size returns the first n*size elements in order, none skipped or repeated |
| SegmentFinder.FindSegments | server/src/routes/segments/segment-route-handler.ts:115-149 | fails on a negative skip, on a limit below 1, and exactly when nothing matches; it succeeds exactly when the window is valid and some segment matches, and then the page is the window of the matches sorted newest first, holds only matching stored segments, is no longer than limit nor than matches minus skip, and totalCount is the number of matches |
| SegmentFinder.TotalCountIgnoresWindow | server/src/routes/segments/segment-route-handler.ts:128-148 | for any two valid windows the finder succeeds for both or for neither, and reports the same total |
| SegmentFinder.PagingCoversMatches | server/src/routes/segments/segment-route-handler.ts:128-134 | walking the pages with skip = page*size lists every match once, newest first |
| SegmentStats.Members | server/src/routes/segments/segment-route-handler.ts:207-214 | a user is a member iff the segment id is in its segment ids; members keep their multiplicity |
| SegmentStats.GroupByGender | server/src/routes/segments/segment-route-handler.ts:229-236 | the grouping has one row per distinct gender, each count at least 1 and equal to the number of users of that gender, and the counts add up to the number of users |
| SegmentStats.GroupingFacts | server/src/routes/segments/segment-route-handler.ts:229-236 | in any valid grouping a gender has a row iff some user has it, each row counts its gender's users, and rows exist iff users exist |
| SegmentStats.GroupingCountsSumToUsers | server/src/routes/segments/segment-route-handler.ts:229-236 | the counts of any valid grouping, in any row order, add up to the number of users |
| SegmentStats.FirstMaxIndex | server/src/routes/segments/segment-route-handler.ts:226 | the picked row has a count no row exceeds, and every earlier row has a strictly smaller count |
| SegmentStats.TopGender | server/src/routes/segments/segment-route-handler.ts:222-227 | absent iff there are no rows; otherwise the gender of the first row with the maximal count |
| SegmentStats.TopGenderIsDominant | server/src/routes/segments/segment-route-handler.ts:222-236 | over any valid grouping the top gender is absent iff there are no users, and no gender has more users than it |
| SegmentStats.AvgIncome | server/src/routes/segments/segment-route-handler.ts:249-257 | the average times the number of users equals the sum of incomes annualised per user (monthly times 12) |
| SegmentStats.AvgWithinIncomes | server/src/routes/segments/segment-route-handler.ts:249-257 | the average lies between the smallest and largest annualised income |
| SegmentStats.AllMonthlyAverage | server/src/routes/segments/segment-route-handler.ts:250-256 | when all incomes are monthly the average is twelve times the mean income level |
| SegmentStats.SegmentUsersMetadata | server/src/routes/segments/segment-route-handler.ts:151-182 | fails iff no user belongs to the segment; otherwise userCount is the number of members (at least 1), avgIncome is their mean annualised income, and topGender is present and dominant |
| SegmentStats.EnrichSegment | server/src/routes/segments/segment-route-handler.ts:186-191 | a segment keeps its id and name and gains its own statistics, or fails when it has no users |
| Sequences.AllSucceed | server/src/routes/segments/segment-route-handler.ts:185-193 | the join succeeds iff every result does, then lists the values in input order; otherwise it returns one of the failures |
| SegmentStats.LookupSegmentsMetadata | server/src/routes/segments/segment-route-handler.ts:184-194 | succeeds iff every segment has users; then the output has the input's length and order, each entry the segment itself with its own statistics |
| GenderDistribution.KeepMaleFemale | server/src/routes/segments/segment-route-handler.ts:85-86 | a row is kept iff it is a Male or Female row, and each kept row occurs as often as in the grouping |
| GenderDistribution.KeepMaleFemaleAppend | server/src/routes/segments/segment-route-handler.ts:85-86 | the kept rows keep their original order: keeping from a concatenation keeps from each part, in order |
| GenderDistribution.KeptTotal | server/src/routes/segments/segment-route-handler.ts:85-93 | the kept rows count exactly the users of the Male and the Female rows, whatever other rows count |
| GenderDistribution.PercentageTenths | server/src/routes/segments/segment-route-handler.ts:93 | the result is 1000*count/total rounded half up, and at most 1000 when count does not exceed total |
| GenderDistribution.GenderShares | server/src/routes/segments/segment-route-handler.ts:85-95 | one entry per kept row in order with its gender and count; every count lies in 1..total so the division never has a zero denominator, and each share is the correctly rounded value in [0, 100.0] |
| GenderDistribution.WholeShare | server/src/routes/segments/segment-route-handler.ts:93 | a row that is the whole total gets exactly 100.0 |
| GenderDistribution.TwoShares | server/src/routes/segments/segment-route-handler.ts:93 | the rounded shares of two parts of a total add up to 100.0 or 100.1 |
| GenderDistribution.SharesAddUp | server/src/routes/segments/segment-route-handler.ts:85-95 | over rows with one row per gender at most two rows are kept; one kept row gets 100.0, and two kept rows' shares add up to 100.0 or 100.1 |
| SegmentRouteHandler.SegmentList | server/src/routes/segments/segment-route-handler.ts:15-35 | the list request fails with the finder's error, or with the enrichment error exactly when a page segment has no users; otherwise the data are the page's segments in order, each with its own statistics, and totalCount is the finder's |
| SegmentRouteHandler.GendersUserCount | server/src/routes/segments/segment-route-handler.ts:196-205 | the gender rows of a segment are a valid grouping of its members and add up to their number |
| SegmentRouteHandler.GetSegmentGenderData | server/src/routes/segments/segment-route-handler.ts:78-97 | at most a Male and a Female entry; an entry is present iff the segment has users of that gender and counts them; each share is that count over the Male and Female members together, in tenths of a percent rounded half up; the shares add up to 100.0 (100.1 after two half-up roundings) |
| SegmentRouteHandler.SharesOfMembers | server/src/routes/segments/segment-route-handler.ts:83-95 | for every valid grouping of the members, whatever the row order: each entry counts its gender and its share is rounded against the Male and Female members only; entries exist iff that gender has members; the shares add up to 100.0 or 100.1 |
| SegmentExamples.AcmeSearch | server/src/routes/segments/segment-route-handler.ts:120-125 | "acme" matches "Acme Corp" and "acmesub" but not "Other" |
| SegmentExamples.PatternCharactersAreLiteral | server/src/routes/segments/segment-route-handler.ts:123 | the search ".*" matches the name ".*" and not "abc" |
| SegmentExamples.SkipPastTheEnd | server/src/routes/segments/segment-route-handler.ts:128-148 | a skip past the matches gives an empty page with the full count |
| SegmentExamples.NoMatchFails | server/src/routes/segments/segment-route-handler.ts:145-148 | a search with no match fails with the empty count facet |
| SegmentExamples.EmptySegmentFails | server/src/routes/segments/segment-route-handler.ts:173-179 | a segment without users fails the metadata lookup |
| SegmentExamples.ThirtySeventy | server/src/routes/segments/segment-route-handler.ts:85-95 | Male 30, Female 70, Other 100 yields 30.0 and 70.0, with Other dropped |
| SegmentExamples.HalvesRoundUp | server/src/routes/segments/segment-route-handler.ts:93 | 1 of 16 and 15 of 16 round to 6.3 and 93.8 |
| SegmentExamples.TopGenderTie | server/src/routes/segments/segment-route-handler.ts:222-227 | the larger count wins, and on a tie the earlier row wins |

## Left out

- The request and response plumbing is not modelled: `parseInt` of the query strings, `res.json`, and `handleResponseError`. The error kinds stand for the exceptions that reach the error handler.
- `getSegmentById` is left out; it is a single lookup by id with no logic.
- `updateSegmentById` is left out; its body does nothing.
- The store connection and driver are not modelled: `getDbWrapper`, `ObjectId` construction, and `aggregate().next()`. The collections are input sequences. Connection and driver failures are not modelled.
- The escaping library and regular-expression engine are not modelled; their combined effect is modelled directly as literal substring matching.
- Case folding covers ASCII letters only. Non-ASCII case pairs (such as É/é), which a case-insensitive pattern would also equate, are not modelled.
- `Promise.all` runs the lookups concurrently. The model evaluates them one after another in page order. The results are identical because every failure carries the same error.
- The store's order for `$group` rows is not modelled; it is a free choice, covered by the lemmas stated over every valid grouping.
- SegmentFinder.FindSegments: `skip` and `limit` are unbounded integers. A store that rejects a `$skip` or `$limit` that does not fit a signed 64-bit integer is not modelled; such a window returns a page. The same goes for `parseInt` losing precision on very long digit strings.
- GenderDistribution.PercentageTenths: models exact rational arithmetic, not IEEE doubles. The floating-point value of `c/t*1000` may land just off an exact half and round the other way.
- SegmentStats.AvgIncome: uses exact rational arithmetic, not doubles.
- Users whose `gender`, `income_level`, `income_type` or `segment_ids` are missing or not of the stored type are not modelled. Every user has all four fields.
- The user id field is left out; it is never read by this code.
- The input validation layer is not modelled; it only checks types and trims the search text. The route wiring file is not modelled either.
- The client list component's paging (skip = pageIndex * 15) is not modelled; `PagingCoversMatches` states the paging property for any page size.
