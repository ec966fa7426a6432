# Email campaign analytics, modelled in Dafny

This project models the analytics layer of the email campaign optimizer
(`email_optimizer.py`). The layer turns a data frame of per-email records
into the following results:

- **Consistency masking.** The three masked column assignments at the end
  of data generation make a click imply an open, a conversion imply a
  click, and revenue imply a conversion.
- **Overall KPIs (`calculate_kpis`).** These are the totals (emails sent,
  opens, clicks, conversions and revenue) and four rates, each guarded
  against a zero denominator.
- **Per-segment KPIs (`analyze_by_segment`).** The function groups the rows
  by segment, sums each group, computes the rates on the group totals and
  fills the undefined 0/0 rates with 0.
- **A/B test bookkeeping (`perform_ab_test`).** The function:
  - restricts the frame to the population the metric is measured on;
  - requires exactly two versions, taken in order of first appearance;
  - builds the 2x2 Success/Failure table;
  - decides significance and a winner.

One data-frame row is a `Records.Record`. Its three indicator columns are
0/1 `Bit`s and its revenue is a `real`. A frame is a `seq<Record>`.

The in-place steps are methods over arrays, each proved equal to a
specification function:

- the masking assignments, over `array<Record>`;
- the rate-column assignments and the `fillna(0, inplace=True)` of the
  per-segment table, over `array<SegmentRow>`.

Everything else is a pure function, with lemmas about it.

Two pandas behaviours are modelled explicitly:

- **Float division by zero.** It yields NaN for 0/0 and an infinity
  otherwise (`Segments.Cell`). `fillna` replaces only NaN.
- **groupby key order.** It is ascending by code point (`StringOrder.StrLess`).

The modules are:

| file | module | models |
|---|---|---|
| `records.dfy` | `Records` | rows, column sums, row selection |
| `string_order.dfy` | `StringOrder` | the order of groupby keys |
| `masking.dfy` | `Masking` | lines 47-49 |
| `kpis.dfy` | `Kpis` | `calculate_kpis` |
| `segments.dfy` | `Segments` | `analyze_by_segment` |
| `ab_test.dfy` | `AbTest` | `perform_ab_test` |

## Model

| member | source | states |
|---|---|---|
| Records.Count | email_optimizer.py:67-69 | summing a 0/1 column never exceeds the number of rows |
| Records.Revenue | email_optimizer.py:70 | the revenue sum is not negative when no revenue cell is |
| Records.WithFlag | email_optimizer.py:139-141 | `df[df[f] == 1]` keeps no more rows than the frame has |
| Records.WithFlagMembers | email_optimizer.py:139-141 | `df[df[f] == 1]` keeps exactly the rows whose indicator is set |
| Records.WithFlagMultiplicity | email_optimizer.py:139-141 | every kept row occurs as often as in the frame, and every other row not at all |
| Records.WithFlagAppend | email_optimizer.py:139-141 | the selection keeps frame order: selecting on two frames one after the other gives the two selections one after the other |
| Records.WithFlagPosition | email_optimizer.py:139-141 | the `j`-th kept row is a flagged row at some position `i` of the frame, and the selection of the frame before `i` is exactly the first `j` kept rows |
| Records.WithGroup | email_optimizer.py:156-159 | `df[df[g] == v]` keeps exactly the rows labelled `v`, and no more rows than the frame has |
| Records.WithGroupMultiplicity | email_optimizer.py:156-159 | every row labelled `v` occurs in the selection as often as in the frame, and every other row not at all |
| Records.WithGroupAppend | email_optimizer.py:156-159 | the selection on a label keeps frame order |
| Records.CountIsSizeOfSelection | email_optimizer.py:139-141 | the sum of an indicator column is the number of rows the selection on that indicator keeps |
| Records.CountUnderImpliedFlag | email_optimizer.py:138-141 | when every row carrying `m` also carries `f`, restricting to the `f` rows loses none of `m`'s count |
| Records.TwoGroupsSplit | email_optimizer.py:155-160 | with two different labels covering every row, the two selections split the row count and the metric sum |
| StringOrder.StrLess | email_optimizer.py:101 | Python's `<` on `str`, code point by code point: a proper prefix comes first, and no key is before itself |
| StringOrder.StrLessTotal | email_optimizer.py:101 | two different keys are always ordered one way or the other |
| StringOrder.StrLessTransitive | email_optimizer.py:101 | the key order is transitive |
| StringOrder.Insert | email_optimizer.py:101 | inserting a key keeps a key list strictly ascending and adds exactly that key |
| StringOrder.StrictlySortedUnique | email_optimizer.py:101 | two strictly ascending key lists with the same keys are equal |
| Masking.Consistent | email_optimizer.py:47-49 | on a consistent row, conversion <= click <= open, and nonzero revenue means the email was opened |
| Masking.ClearClick | email_optimizer.py:47 | afterwards a click implies an open; only the click cell changes, and only downwards; a row is kept if and only if its click already implied an open |
| Masking.ClearConversion | email_optimizer.py:48 | afterwards a conversion implies a click; only the conversion cell changes, and only downwards; a row is kept if and only if that already held |
| Masking.ClearRevenue | email_optimizer.py:49 | afterwards an unconverted row has revenue 0; only the revenue cell changes, and only to 0; a row is kept if and only if that already held |
| Masking.Mask | email_optimizer.py:47-49 | after the three assignments a row is consistent: click implies open, conversion implies click, no conversion means zero revenue. Only click, conversion and revenue can drop, every other cell is kept, and exactly the consistent rows are left unchanged |
| Masking.MaskAll | email_optimizer.py:47-49 | masking a frame masks every row and keeps the row count |
| Masking.MaskAllIdempotent | email_optimizer.py:47-49 | a masked frame is consistent, and masking it again changes nothing |
| Masking.MaskAllFixesExactlyConsistent | email_optimizer.py:47-49 | masking leaves a frame unchanged if and only if every row is already consistent |
| Masking.ClearClicksOfUnopened | email_optimizer.py:47 | in place, every unopened row's click is cleared and nothing else changes |
| Masking.ClearConversionsOfUnclicked | email_optimizer.py:48 | in place, every unclicked row's conversion is cleared and nothing else changes |
| Masking.ClearRevenueOfUnconverted | email_optimizer.py:49 | in place, every unconverted row's revenue becomes 0 and nothing else changes |
| Masking.MaskFrame | email_optimizer.py:47-49 | the three passes in order turn the array into its masked frame, and every row is then consistent |
| Kpis.Percent | email_optimizer.py:72-74 | the guarded percentage is 0 on a zero denominator; otherwise times the denominator it is 100 times the numerator. It is never negative, and at most 100 when the numerator does not exceed the denominator |
| Kpis.PerEmail | email_optimizer.py:75 | revenue per email is 0 with no emails; otherwise times the email count it gives the revenue total |
| Kpis.CalculateKpis | email_optimizer.py:66-70 | emails sent is the row count; opens, clicks and conversions are the indicator sums, each at most the row count; revenue is the revenue sum; an empty frame gives the all-zero report |
| Kpis.KpiRatesAreGuardedRatios | email_optimizer.py:72-75 | each rate is 0 when its denominator is 0, and otherwise 100 times numerator over denominator. Open rate is over sent, click-through over opens, conversion over clicks; revenue per email is over sent, without the factor 100 |
| Kpis.FunnelNarrows | email_optimizer.py:47-49 | on consistent rows, conversions <= clicks <= opens |
| Kpis.KpiRatesBounded | email_optimizer.py:72-74 | on consistent rows, open, click-through and conversion rates lie in [0, 100] |
| Kpis.MaskedKpiRatesBounded | email_optimizer.py:47-49 | for the KPIs of any masked frame, every percentage rate lies in [0, 100] |
| Kpis.RevenueNonNegative | email_optimizer.py:70 | with no negative revenue cell, total revenue and revenue per email are not negative |
| Segments.Divide | email_optimizer.py:109-112 | float division: a number exactly when the denominator is nonzero, and then times the denominator it gives the numerator; NaN exactly for 0/0; +inf or -inf exactly for a positive or negative numerator over 0 |
| Segments.Times100 | email_optimizer.py:109-111 | multiplying by 100 turns a ratio cell into a percentage cell of the same numerator and denominator, keeping NaN and the infinities; a ratio in [0, 1] becomes a percentage in [0, 100] |
| Segments.FillNa | email_optimizer.py:114 | `fillna(0)` leaves no NaN: NaN becomes 0 and every other cell is kept |
| Segments.Aggregate | email_optimizer.py:101-107 | a segment's row holds the email count, the three indicator sums and the revenue sum over that segment's rows only; it counts at least one email exactly when the segment occurs, and no indicator sum exceeds the emails counted; the rate columns do not exist yet (NaN) |
| Segments.WithRates | email_optimizer.py:109-112 | each percentage cell is 100 times its numerator over its denominator, and revenue per email is revenue over sent, with the float-division outcomes on a zero denominator; segment and totals are kept |
| Segments.FillNaRow | email_optimizer.py:114 | no rate cell is NaN afterwards; cells that were not NaN, the segment and the totals are kept |
| Segments.SegmentKeys | email_optimizer.py:101 | the group keys are strictly ascending and are exactly the segments that occur |
| Segments.SegmentKeysAreAscendingSegments | email_optimizer.py:101 | any strictly ascending list of exactly the occurring segments is the key list, so key order does not depend on row order |
| Segments.SegmentTable | email_optimizer.py:101-114 | one row per group key, in key order |
| Segments.AssignRates | email_optimizer.py:109-112 | in place, every row gets its four rate columns from its own totals, and nothing else changes |
| Segments.FillMissingRates | email_optimizer.py:114 | in place, every NaN rate cell of every row becomes 0, and nothing else changes |
| Segments.AnalyzeBySegment | email_optimizer.py:101-114 | returns a fresh array holding the per-segment table |
| Segments.OccurringSegmentIsNonEmpty | email_optimizer.py:102 | a segment that occurs has at least one row |
| Segments.SegmentTableRows | email_optimizer.py:101-107 | rows are in strictly ascending segment order, one per occurring segment. Each row's sums cover that segment's rows only, and each sent count is at least 1 |
| Segments.SegmentRowIsSegmentKpis | email_optimizer.py:109-114 | each row carries the `calculate_kpis` totals and rates of its segment's rows, except that clicks without opens, or conversions without clicks, leave an infinite rate that `fillna` does not replace |
| Segments.CellOfPercent | email_optimizer.py:109-114 | a percentage cell after `fillna` is the guarded percentage, or +inf when the numerator is positive over a zero denominator |
| Segments.SegmentRatesBounded | email_optimizer.py:109-114 | on consistent rows every rate cell is a number, and every percentage lies in [0, 100] |
| Segments.PartitionBySegment | email_optimizer.py:101-107 | summing a column over the groups of distinct keys that cover all rows gives the column's total |
| Segments.ColumnSumIsTotal | email_optimizer.py:101-107 | a summed column of the table, added over all rows, is that column's total over the frame |
| Segments.SegmentTotalsMatchKpis | email_optimizer.py:101-107 | across all segment rows, the sent, opened, clicked, converted and revenue sums equal the overall totals of `calculate_kpis` |
| AbTest.Passes | email_optimizer.py:138-143 | the filter condition: every row for `opened`, the opened rows for `clicked`, the clicked rows for `converted`; on a consistent row, a set metric always passes |
| AbTest.TestPopulation | email_optimizer.py:138-143 | for `clicked` the population is exactly the opened rows, for `converted` exactly the clicked rows, and for `opened` the whole frame |
| AbTest.PopulationMultiplicity | email_optimizer.py:138-143 | every row of the population occurs as often as in the frame |
| AbTest.PopulationAppend | email_optimizer.py:138-143 | the population keeps frame order |
| AbTest.PopulationPosition | email_optimizer.py:138-143 | the `j`-th population row is a passing row at some position `i` of the frame, and every passing row before `i` is among the first `j` population rows |
| AbTest.Labels | email_optimizer.py:148 | the group column read row by row |
| AbTest.Unique | email_optimizer.py:148 | `unique()` lists each label once, and exactly the labels that occur |
| AbTest.UniqueCountsLabels | email_optimizer.py:148-149 | `unique()` lists as many labels as there are distinct labels |
| AbTest.TwoLabelsInOrder | email_optimizer.py:148-153 | with two distinct labels, the first is the first label and the second is at the first position that differs; every label is one of the two |
| AbTest.Tabulate | email_optimizer.py:155-160 | for each version, Success is the metric summed over that version's rows, and Success + Failure is that version's row count |
| AbTest.BuildResult | email_optimizer.py:155-185 | the result is tagged `A/B Test` and holds both versions, their Success counts (metric sums over their rows) and their totals (their row counts) |
| AbTest.ZeroExpected | email_optimizer.py:162 | the condition on which the chi-square test raises: some expected frequency's numerator, its row sum times its column sum, is 0 |
| AbTest.PerformAbTest | email_optimizer.py:125-190 | an empty population gives None; a result's two versions differ, and it carries the group column, the metric, the statistic and the p-value it was given |
| AbTest.AbTestOutcomes | email_optimizer.py:145-162 | None if and only if the filtered population does not show exactly two distinct labels (an empty one shows none); with two labels, the chi-square test raises if and only if the population's metric sum is 0 or the population size; otherwise there is a result |
| AbTest.TwoVersionsZeroExpected | email_optimizer.py:155-162 | with two versions, the table has a zero expected frequency if and only if the metric is 0 on every population row or 1 on every one |
| AbTest.ZeroExpectedOfMargins | email_optimizer.py:162 | a table with two non-empty rows has a zero row or column sum exactly when its successes are none or all of its entries |
| AbTest.PopulationVersions | email_optimizer.py:148-153 | with two labels, version A is the first row's label, version B the label of the first row that differs, and every row carries one of them |
| AbTest.AbTestVersionsInFirstAppearanceOrder | email_optimizer.py:148-153 | a result's versions differ, A is the first row's label, B the first different label, and every row of the population carries A or B |
| AbTest.AbTestVersionsInFrameOrder | email_optimizer.py:138-153 | on the frame itself, version A is the label of the first row that passes the filter, and version B the label of a passing row before which every passing row is labelled A |
| AbTest.VersionGroupsSplit | email_optimizer.py:155-160 | with two different versions that both occur and cover every row, each has at least one row, and the two split the population and its successes |
| AbTest.AbTestTable | email_optimizer.py:155-160 | Success is the metric sum over a version's rows, and the total is that version's row count (at least 1); the two versions together account for the population and its successes |
| AbTest.BuildResultRates | email_optimizer.py:167-168 | each rate is the guarded percentage of its Success count over its total |
| AbTest.BuildResultWinner | email_optimizer.py:164-172 | significant if and only if p < 0.05; winner 'None' unless significant; when significant, A if and only if rate A > rate B, otherwise B (ties go to B) |
| AbTest.AbTestRates | email_optimizer.py:167-168 | each rate is its guarded percentage and lies in [0, 100] |
| AbTest.AbTestWinner | email_optimizer.py:164-189 | significance and winner as above, with the statistic and p-value passed through |
| AbTest.PopulationIsFunnelStage | email_optimizer.py:138-143 | on consistent rows the population size is the previous funnel stage's count, and the population's successes are the metric's overall count |
| AbTest.AbTestMatchesKpis | email_optimizer.py:138-160 | on consistent rows the test's combined totals and successes equal the funnel numbers of `calculate_kpis`: sent/opens, opens/clicks, clicks/conversions |

## Left out

- Random data generation (email_optimizer.py:26-45, 51) is not modelled. It draws from NumPy and `random` and reads the clock; only its masking lines 47-49 are modelled.
- `chi2_contingency` (email_optimizer.py:162) is a statistics-library call. Its statistic and p-value are parameters of `AbTest.PerformAbTest` and are passed through unchanged, so nothing is proved about how they relate to the table. The degrees of freedom and the expected table are unused by the code and left out. Its one error case reachable from this code, a zero expected frequency, is modelled as the outcome `Raises`. What a raised exception does to a caller (a server error in `app.py`) is not modelled.
- Rounding for display (lines 82-86, 116, 181, 185-187) and the int/float casts are not modelled: rates, revenue and sums are exact reals.
- The `email_id` count (line 102) is modelled as the number of rows, since every generated row has an id.
- `opened`, `clicked` and `converted` are 0/1 (`Bit`), as generated. An A/B metric is one of these three columns (`Flag`); an arbitrary column name is not modelled.
- `revenue` is a real. NaN revenue is not modelled, so `fillna` acts on the rate columns only. `Segments.Cell`'s `NegInf` arises only from negative revenue over zero sent, which cannot happen in a group that exists.
- Group labels are strings. Pandas ordering of non-string keys is not modelled.
- `plot_kpis` is not modelled: matplotlib rendering and PNG output.
- `app.py` is not part of this model: its Flask routes, request parsing, date filtering and the global data frame are web plumbing.
- The tests under `tests/` are not part of this model: they call routes and objects that `app.py` does not define.
