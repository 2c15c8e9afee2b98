# Alphabet financial EDA: a verified model of the fact pipeline

Two scripts fetch the SEC EDGAR XBRL "company facts" document for Alphabet
(CIK 1652044), reshape the fact lists with pandas, print checks and plot charts.
This project models the data pipeline between the fetch and the output as pure
functions over sequences of fact records, and proves properties about it.

- `Google-Finanical-EDA-Analysis2.py` is the ratio calculator. It extracts eight
  us-gaap concepts in USD with a soft-failing lookup (`get_tag_df`). It keeps the
  10-K filings and, for seven of the tables, the latest-ending row per accession
  number. It inner-merges revenue, net income and cost of revenue on
  `(accn, end)`, left-merges five balance-sheet tables and adds seven derived
  columns: gross profit, two margins, quick assets, and the current, quick and
  debt-to-equity ratios.
- `Google-Finanical-EDA-Analysis1.py` is the revenue explorer. It zero-pads CIKs
  to ten digits, keeps revenue rows that carry a calendar frame, sorts them by
  period end and selects the annual `CY####` 10-K rows. It then reports IQR
  outliers, per-column null counts and duplicate period ends, and computes
  year-over-year growth.

Modules:

| module | contents |
|---|---|
| `Wrappers` | `Option`, which stands for pandas NaN and for a failed lookup |
| `Seqs` | row filtering (`df[mask]`), the subsequence relation, counting |
| `Dates` | the order on ISO date strings used by `sort_values('end')` |
| `Facts` | the fact record, the nested payload maps, `get_tag_df` |
| `Periods` | the 10-K filter, the sort by `end`, `drop_duplicates('accn', keep='last')` |
| `Joins` | rows with named cells, projection, inner and left merge on `(accn, end)` |
| `Ratios` | the seven derived columns of a row |
| `RatioPipeline` | the ratio calculator end to end, from payload to final table |
| `Cik` | `str.zfill` |
| `RevenueChecks` | the revenue explorer's filters, checks and growth column |

Values are `real`. A missing cell is `None`. Period ends are ISO `YYYY-MM-DD`
strings, compared character by character. For dates of that form this is the
calendar order.

## Model

| member | source | states |
|---|---|---|
| Facts.LookupUsdFacts | Google-Finanical-EDA-Analysis2.py:16 | the lookup succeeds iff each key of facts → us-gaap → tag → units → USD exists, and then yields the list stored at that path |
| Facts.GetTagDf | Google-Finanical-EDA-Analysis2.py:14-18 | a missing key at any level gives the empty table; otherwise the result is exactly the stored USD list |
| Facts.GetAfterPut | Google-Finanical-EDA-Analysis2.py:14-18 | extraction returns exactly the fact list stored under the tag |
| Facts.GetAfterPutOther | Google-Finanical-EDA-Analysis2.py:14-18 | storing one concept leaves the extraction of every other concept unchanged |
| Dates.LexLeTotalOrder | Google-Finanical-EDA-Analysis2.py:43 | the order used to sort period ends is reflexive-total, transitive and antisymmetric |
| Dates.MidYearBeforeYearEnd | Google-Finanical-EDA-Analysis2.py:43 | a mid-year end sorts strictly before the year end of the same year |
| Periods.AnnualFilings | Google-Finanical-EDA-Analysis2.py:33-40 | keeps exactly the input rows whose form is "10-K": an order-preserving subsequence of the input holding each such row and nothing else, as long as the number of 10-K rows, so repeated rows keep every copy |
| Periods.AnnualFilingsOrderAndIdempotence | Google-Finanical-EDA-Analysis2.py:33-40 | the 10-K filter keeps relative order and is idempotent |
| Periods.SortByEnd | Google-Finanical-EDA-Analysis2.py:43 | the result is ascending by `end` and a permutation of the input |
| Periods.SortSortedIdentity | Google-Finanical-EDA-Analysis2.py:43 | sorting a table already in `end` order changes nothing |
| Periods.KeepLastPerAccn | Google-Finanical-EDA-Analysis2.py:43-49 | each accession appears once, every input accession survives, and the kept rows are an order-preserving subsequence; which row survives is stated by `KeptIsLast` and `LastIsKept` |
| Periods.KeptIsLast | Google-Finanical-EDA-Analysis2.py:43-49 | keep='last': every kept row is an input row after which no row has the same accession |
| Periods.LastIsKept | Google-Finanical-EDA-Analysis2.py:43-49 | keep='last': the last input row of each accession is kept |
| Periods.KeepLastUniqueIdentity | Google-Finanical-EDA-Analysis2.py:43-49 | a table whose accessions are already distinct is left unchanged |
| Periods.KeptFromTailIsLatest | Google-Finanical-EDA-Analysis2.py:43-49 | on an `end`-sorted table, a row kept from the tail has an `end` no earlier than any row of its accession, including the head |
| Periods.KeptRowIsLatest | Google-Finanical-EDA-Analysis2.py:43-49 | on an `end`-sorted table, the kept row of an accession has an `end` no earlier than any row of that accession |
| Periods.LatestPerAccn | Google-Finanical-EDA-Analysis2.py:43-49 | sort then dedup: unique accessions, same accession set as the input, sorted by `end`, and a sub-multiset of the input |
| Periods.DedupOfAnySortedPermutation | Google-Finanical-EDA-Analysis2.py:43-49 | for ANY `end`-sorted permutation of the input, whatever the tie order: unique accessions, none lost, and each kept row is an input row with the latest `end` of its accession |
| Periods.LatestPerAccnIdempotent | Google-Finanical-EDA-Analysis2.py:43-49 | sorting and deduplicating twice is the same as once |
| Periods.RestatedFilingKeepsYearEnd | Google-Finanical-EDA-Analysis2.py:43-49 | when one accession reports a mid-year and a year-end period, the year-end row is kept and the mid-year row dropped |
| Joins.Project | Google-Finanical-EDA-Analysis2.py:52 | one row per fact, with its key and the fact's value in the named column |
| Joins.ProjectKeys | Google-Finanical-EDA-Analysis2.py:52 | projection keeps the set of keys, and one-fact-per-key becomes one-row-per-key |
| Joins.InnerMerge | Google-Finanical-EDA-Analysis2.py:53-54 | the result's keys are exactly the keys on both sides; with one fact per key on the right, no more rows than the left |
| Joins.InnerMergeUniqueKeys | Google-Finanical-EDA-Analysis2.py:53-54 | unique keys on both sides give unique keys in the result |
| Joins.InnerMergeBoundedByRight | Google-Finanical-EDA-Analysis2.py:53-54 | with unique keys on both sides, no more rows than the right table |
| Joins.InnerMergeRowOrigin | Google-Finanical-EDA-Analysis2.py:53-54 | each result row is a left row plus the value of a right fact with the same key |
| Joins.InnerMergeColumns | Google-Finanical-EDA-Analysis2.py:53-54 | an inner merge adds the new column, always holding a value |
| Joins.InnerMergeKeepsFilled | Google-Finanical-EDA-Analysis2.py:53-54 | an inner merge keeps other filled columns filled |
| Joins.LeftMerge | Google-Finanical-EDA-Analysis2.py:55-59 | a left merge never loses a key or a row, and with one fact per key on the right it keeps the row count |
| Joins.LeftMergeRowOrigin | Google-Finanical-EDA-Analysis2.py:55-59 | each result row is a left row plus a matching fact's value, or a missing cell when nothing matches |
| Joins.LeftMergeUniqueRight | Google-Finanical-EDA-Analysis2.py:55-59 | with one fact per key on the right, row i is left row i with the matching value or a missing cell |
| Joins.LeftMergeColumns | Google-Finanical-EDA-Analysis2.py:55-59 | a left merge adds exactly the new column |
| Joins.LeftMergeKeepsFilled | Google-Finanical-EDA-Analysis2.py:55-59 | a left merge keeps other filled columns filled |
| Joins.LeftMergeKeepsMissing | Google-Finanical-EDA-Analysis2.py:55-59 | a left merge keeps other missing columns missing |
| Joins.LeftMergeEmptyMissing | Google-Finanical-EDA-Analysis2.py:55-59 | left-merging an empty table adds a column that is missing on every row |
| Ratios.Minus | Google-Finanical-EDA-Analysis2.py:62 | a difference is present iff both operands are, and it then adds back to the minuend |
| Ratios.Over | Google-Finanical-EDA-Analysis2.py:63 | a quotient is present iff both operands are present and the divisor is non-zero |
| Ratios.OverInverse | Google-Finanical-EDA-Analysis2.py:63 | a present quotient times the divisor gives back the dividend |
| Ratios.Derive | Google-Finanical-EDA-Analysis2.py:62-69 | the merged cells of a row pass through unchanged beside its derived columns |
| Ratios.GrossProfitOfRow | Google-Finanical-EDA-Analysis2.py:62 | gross profit is present iff revenue and cost of revenue are, and then equals their exact difference |
| Ratios.MarginsOfRow | Google-Finanical-EDA-Analysis2.py:63-64 | margins are gross profit and net income over revenue: exact quotients when revenue is present and non-zero, missing when revenue is missing or zero, never clamped |
| Ratios.QuickAssetsOfRow | Google-Finanical-EDA-Analysis2.py:66 | quick assets are missing iff current assets or inventory is, and otherwise equal their exact difference |
| Ratios.CurrentRatioOfRow | Google-Finanical-EDA-Analysis2.py:67 | the current ratio is current assets over current liabilities and depends on no other cell |
| Ratios.QuickRatioOfRow | Google-Finanical-EDA-Analysis2.py:68 | the quick ratio is missing whenever current assets, inventory or current liabilities is missing, and equals quick assets over current liabilities |
| Ratios.DebtToEquityOfRow | Google-Finanical-EDA-Analysis2.py:69 | debt-to-equity is present iff total liabilities and a non-zero total equity are, and then times total equity gives total liabilities back |
| Ratios.DeriveAll | Google-Finanical-EDA-Analysis2.py:62-69 | the derived columns are computed row by row, one output row per input row, in order |
| Ratios.DeriveAllGrossProfit | Google-Finanical-EDA-Analysis2.py:62 | where revenue and cost of revenue are filled, every row's gross profit is their difference |
| RatioPipeline.LatestTagUniqueKeys | Google-Finanical-EDA-Analysis2.py:43-49 | after dedup by accession, each `(accn, end)` key occurs at most once |
| RatioPipeline.ProfitFrameColumns | Google-Finanical-EDA-Analysis2.py:52-54 | the three inner merges give exactly the revenue, net income and cost-of-revenue columns, all filled |
| RatioPipeline.ProfitFrameKeys | Google-Finanical-EDA-Analysis2.py:52-54 | a key is present iff it is in all three tables; keys are unique; the row count is at most each table's count |
| RatioPipeline.ProfitabilityKeys | Google-Finanical-EDA-Analysis2.py:52-54 | the same for the deduplicated 10-K tables extracted from the payload |
| RatioPipeline.LeftMergeAllColumns | Google-Finanical-EDA-Analysis2.py:55-59 | successive left merges add their columns and keep the three profitability columns filled |
| RatioPipeline.LeftMergeAllKeys | Google-Finanical-EDA-Analysis2.py:55-59 | successive left merges keep the key set, never drop a row, and keep the count when every right table has unique keys |
| RatioPipeline.LeftMergeAllKeepsMissing | Google-Finanical-EDA-Analysis2.py:55-59 | a column that no step adds stays missing |
| RatioPipeline.LeftMergeAllEmptyMissing | Google-Finanical-EDA-Analysis2.py:55-59 | a step with an empty table leaves its column missing on every row |
| RatioPipeline.BalanceFrameColumns | Google-Finanical-EDA-Analysis2.py:55-59 | the five balance-sheet merges give exactly the eight value columns |
| RatioPipeline.BalanceFrameKeys | Google-Finanical-EDA-Analysis2.py:55-59 | the balance-sheet merges keep the keys and never drop a row; the count is unchanged if the current-assets table also has unique keys |
| RatioPipeline.BalanceFrameNoInventory | Google-Finanical-EDA-Analysis2.py:57 | an empty inventory table leaves inventory missing on every row |
| RatioPipeline.JoinedColumns | Google-Finanical-EDA-Analysis2.py:52-59 | every merged row has the eight value columns, and the three inner-merged ones hold values |
| RatioPipeline.JoinedKeepsProfitabilityRows | Google-Finanical-EDA-Analysis2.py:55-59 | the left merges keep the profitability keys and rows; the count is preserved when the (undeduplicated) current-assets table has unique keys |
| RatioPipeline.RatioTable | Google-Finanical-EDA-Analysis2.py:62-69 | one final row per merged row, in order, carrying the merged row with revenue, net income and cost of revenue present, and its derived columns computed from that row alone |
| RatioPipeline.RatioTableGrossProfit | Google-Finanical-EDA-Analysis2.py:62 | on every final row, gross profit is present and equals revenue less cost of revenue |
| RatioPipeline.MissingInventory | Google-Finanical-EDA-Analysis2.py:66-68 | with no inventory concept in the payload, inventory, quick assets and the quick ratio are missing on every row, while the current ratio is still current assets over current liabilities |
| Cik.ZFill | Google-Finanical-EDA-Analysis1.py:16 | the result has length max(len, width); text already that wide is unchanged; a leading sign stays in front of the padding |
| Cik.ZFillDigits | Google-Finanical-EDA-Analysis1.py:16 | on a digit string, the result is zeros followed by the input; the input is a suffix; the result is all digits and denotes the same number |
| Cik.ZerosPrefixValue | Google-Finanical-EDA-Analysis1.py:16 | leading zeros do not change the number a digit string denotes |
| Cik.ZFillIdempotent | Google-Finanical-EDA-Analysis2.py:10 | padding an already padded CIK again changes nothing |
| Cik.AlphabetCik | Google-Finanical-EDA-Analysis2.py:7-10 | Alphabet's CIK pads to "0001652044", which padding again leaves alone |
| RevenueChecks.RevenueTable | Google-Finanical-EDA-Analysis1.py:26 | indexing the revenue facts fails iff the key path is missing, and otherwise yields the same list as the soft lookup |
| RevenueChecks.ReportOf | Google-Finanical-EDA-Analysis1.py:50-53 | the all-clear branch is taken iff the selected rows are empty; otherwise exactly those rows are printed |
| RevenueChecks.WithFrame | Google-Finanical-EDA-Analysis1.py:28 | keeps exactly the input rows whose frame is present: an order-preserving subsequence of the input as long as the number of framed rows |
| RevenueChecks.WithFrameOrderAndIdempotence | Google-Finanical-EDA-Analysis1.py:28 | the frame filter keeps order and is idempotent |
| RevenueChecks.FrameNulls | Google-Finanical-EDA-Analysis1.py:56 | the frame null count is at most the row count, and is zero iff every row has a frame |
| RevenueChecks.MissingPerColumn | Google-Finanical-EDA-Analysis1.py:56 | the always-present columns count no nulls; the frame column counts zero iff every row has a frame |
| RevenueChecks.FrameNullsDropped | Google-Finanical-EDA-Analysis1.py:28 | the frame null count is exactly the number of rows the frame filter drops |
| RevenueChecks.NoMissingAfterFrameFilter | Google-Finanical-EDA-Analysis1.py:56-60 | after the frame filter every modelled column counts zero nulls |
| RevenueChecks.FrameLabels | Google-Finanical-EDA-Analysis1.py:38 | "CY2023" is an annual label; quarterly, instant and two-digit-year labels are not |
| RevenueChecks.SortedRevenues | Google-Finanical-EDA-Analysis1.py:33 | the framed rows, sorted ascending by `end` and permuted only |
| RevenueChecks.AnnualRevenuesSpec | Google-Finanical-EDA-Analysis1.py:36-39 | a row is in the annual subset iff it is an input row with form "10-K" and a `CY` + four-digit frame; the subset is an order-preserving subsequence of the sorted table holding as many rows as qualify, and is itself sorted |
| RevenueChecks.ResortIsNoOp | Google-Finanical-EDA-Analysis1.py:87 | re-sorting the annual subset by `end` changes nothing |
| RevenueChecks.Outliers | Google-Finanical-EDA-Analysis1.py:45-48 | keeps exactly the rows whose value lies below Q1 − 1.5·IQR or above Q3 + 1.5·IQR, in order and each copy |
| RevenueChecks.InterquartileNotFlagged | Google-Finanical-EDA-Analysis1.py:44-48 | with Q1 ≤ Q3, a value in [Q1, Q3] is never flagged |
| RevenueChecks.OutlierReportClear | Google-Finanical-EDA-Analysis1.py:50-53 | the "no significant outliers" branch is taken iff no row is flagged |
| RevenueChecks.OutlierExample | Google-Finanical-EDA-Analysis1.py:44-48 | the fences fall exactly at Q1 − 1.5·IQR and Q3 + 1.5·IQR on a worked example |
| RevenueChecks.EndCountShared | Google-Finanical-EDA-Analysis1.py:63 | a row's period end is counted more than once iff another row shares it |
| RevenueChecks.Duplicates | Google-Finanical-EDA-Analysis1.py:63 | keeps exactly the input rows whose period end occurs more than once, in order and each copy |
| RevenueChecks.DuplicatesSpec | Google-Finanical-EDA-Analysis1.py:63 | keep=False: a row is reported iff some other row has the same period end |
| RevenueChecks.SharedEndReported | Google-Finanical-EDA-Analysis1.py:63 | both rows of a shared period end are reported |
| RevenueChecks.DuplicateReportClear | Google-Finanical-EDA-Analysis1.py:65-68 | the "no duplicate period entries" branch is taken iff all period ends are distinct |
| RevenueChecks.PctChange | Google-Finanical-EDA-Analysis1.py:88 | a percentage change is defined iff its base is non-zero |
| RevenueChecks.PctChangeInverse | Google-Finanical-EDA-Analysis1.py:88 | applying a defined percentage change to the earlier value gives the later value |
| RevenueChecks.Growth | Google-Finanical-EDA-Analysis1.py:88 | one growth entry per value, and the first is missing |
| RevenueChecks.GrowthAt | Google-Finanical-EDA-Analysis1.py:88 | entry i is (v[i] − v[i−1]) / v[i−1] · 100 when v[i−1] ≠ 0 |
| RevenueChecks.GrowthDefinedCount | Google-Finanical-EDA-Analysis1.py:88 | with no zero value before the last, exactly n − 1 of the n entries are defined |
| RevenueChecks.GrowthReconstructs | Google-Finanical-EDA-Analysis1.py:88 | each defined growth figure takes the previous value to the current one |
| RevenueChecks.AnnualGrowth | Google-Finanical-EDA-Analysis1.py:87-88 | one growth entry per annual row |
| RevenueChecks.AnnualGrowthInOrder | Google-Finanical-EDA-Analysis1.py:87-88 | growth after the re-sort equals growth over the annual rows in their existing order |
| RevenueChecks.AnnualGrowthAt | Google-Finanical-EDA-Analysis1.py:87-88 | annual entry i is the percentage change from annual row i−1's revenue to row i's |

## Left out

- HTTP requests and JSON decoding (Google-Finanical-EDA-Analysis1.py:14, 23; Google-Finanical-EDA-Analysis2.py:11) are not modelled. The decoded document is a parameter (`Facts.Payload`).
- The ticker table and the `.at['GOOGL', 'cik_str']` lookup (Google-Finanical-EDA-Analysis1.py:15-20) are not modelled; only `zfill` is.
- Printing and plotting are not modelled: Google-Finanical-EDA-Analysis1.py:49-97 and Google-Finanical-EDA-Analysis2.py:72-106. A check's printed outcome is `RevenueChecks.Report`.
- Float numerics are not modelled. This covers `quantile` interpolation (Q1 and Q3 are parameters), `describe` and `std` (Google-Finanical-EDA-Analysis1.py:71, 74), `to_datetime` and `astype(float)` (31-32). Values are exact reals.
- Ratios.Over: a zero divisor gives a missing value, where pandas gives ±inf (NaN for 0/0). Every contract that speaks of a zero divisor describes the model's missing value, not pandas' infinity.
- Ratios.MarginsOfRow: "missing when revenue is zero" is the model's zero-divisor rule; pandas gives ±inf or NaN margins there.
- Ratios.DebtToEquityOfRow: "present iff total equity is non-zero" is the model's zero-divisor rule; pandas gives ±inf or NaN for zero equity.
- RevenueChecks.PctChange: "defined iff the base is non-zero" is the model's zero-divisor rule; pandas gives ±inf (NaN for 0 to 0) there.
- Periods.SortByEnd: the script's `sort_values` is pandas' default quicksort, which is not stable. The model sorts stably by insertion. `Periods.DedupOfAnySortedPermutation` states the dedup guarantees for every sorted permutation, so they do not depend on which equal-`end` row comes first. `Periods.SortSortedIdentity`, `Periods.LatestPerAccnIdempotent`, `RevenueChecks.ResortIsNoOp` and `RevenueChecks.AnnualGrowthInOrder` hold exactly for the model's stable sort; under pandas' unstable sort they hold up to the order of rows with equal `end`. The model does not say which of several rows with the same accession and the same latest `end` survives.
- Merge output row order is pandas-internal and is not claimed. The model's merges produce left-table order, and the merge properties are stated on keys, membership and counts.
- Fact records carry only `accn`, `end`, `val`, `form` and `frame`. The other fields of an EDGAR fact (`fy`, `fp`, `filed`, ...) are not modelled. That includes the column schema of `get_tag_df`'s empty fallback table, which is modelled as the empty sequence.
- RevenueChecks.MissingPerColumn counts nulls only in the five modelled columns.
- RevenueChecks.NoMissingAfterFrameFilter: proves zero nulls only for the five modelled columns. `isnull().sum()` at Google-Finanical-EDA-Analysis1.py:56 also counts `start`, `fy`, `fp`, `filed` and the other fact fields. Whether the "no missing values" message is printed therefore depends on columns this model does not have.
- Facts.GetTagDf: a USD list that exists but is empty gives a table with no columns. The 10-K filter at Google-Finanical-EDA-Analysis2.py:33-40 then raises `KeyError` on `form` and the script stops. The model carries on with the empty table.
- RevenueChecks.WithFrame: when no revenue fact carries a `frame` key, pandas builds no `frame` column. Google-Finanical-EDA-Analysis1.py:28 then raises `KeyError` and the script stops. The model returns the empty table.
- RevenueChecks.IsCYFrame models `^CY\d{4}$` on ASCII digits with an exact end of string. Unicode digits and `$` matching before a trailing newline are not modelled. The year in the label is not parsed into a number.
- Ratios.Derive: the derived columns sit in a record beside the merged row, not as extra cells of the same frame.
- The current-assets table is 10-K filtered but not deduplicated. Google-Finanical-EDA-Analysis2.py:43-49 skips it, and the model keeps that behaviour. For that reason the row-count equality in `RatioPipeline.JoinedKeepsProfitabilityRows` takes unique current-assets keys as a hypothesis.
- The final sort for plotting (Google-Finanical-EDA-Analysis2.py:79) is not modelled, because it only orders the plotted points.
