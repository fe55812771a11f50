# Tech layoffs: cleaning and per-company metrics, in Dafny

This project models the data core of the Tech-Layoffs-Analysis repository. It has two parts.

- **The row cleaner.** `clean_layoff_data` in `Clean.py` rewrites the caller's table in place, column by column:
  - percentage text becomes a float or null;
  - funding text with `M`/`B` suffixes becomes dollars, through `parse_funding`;
  - year, month and quarter are derived from the date;
  - the company size is estimated by `estimate_size` and bucketed by `categorize_size`;
  - null countries and locations become `"Unknown"`.
- **The four metrics** of `scripts/metrics.py`:
  - layoff efficiency;
  - layoff instability;
  - layoff severity;
  - the per-location fragility index.

  Each one filters the rows, computes per-row values, groups by a key, aggregates each group and sorts the groups by score, highest first.

Files:

| file | module | what it holds |
|---|---|---|
| `wrappers.dfy` | `Wrappers` | `Option` and `Result` |
| `strings.dfy` | `Strings` | Python's `str.replace(c, '')`, ASCII `upper()`/`lower()`, and the whitespace strip that `float()` applies |
| `numerals.dfy` | `Numerals` | `float(text)` on decimal text and `str(x)` on a float. A float is held as the decimal numeral it denotes, so reading back what was written gives the same value (`ParseShow`). |
| `tables.dfy` | `Tables` | the pandas vocabulary over a sequence of rows: mask filtering, `groupby` with null keys dropped, `drop_duplicates`, `sum`/`mean`, and a stable `sort_values(ascending=False)` |
| `clean.dfy` | `Clean` | the cell-level steps as functions; the table as a class `LayoffTable` updated in place by the method `CleanLayoffData`, proved against the specification function `Cleaned` |
| `metrics.dfy` | `Metrics` | the three read-only metrics as functions over the cleaned rows; `CalculateLayoffInstability` as a method, because it writes the caller's `quarter` column |

Two steps of the code can raise:
- `astype(float)` on a leftover non-numeric percentage raises.
- The unguarded `float()` in the `M` and `B` branches of `parse_funding` raises.

Both raise `ValueError`, modelled as `Failure(ValueError(text))`. `Cleaned` records the table as the failing step leaves it.

Four behaviours of the code are easy to misread. The model follows the code each time:
- `parse_funding("abc")` raises. Clean.py:23 upper-cases the text to `"ABC"`, which holds a `B`. The `float("AC")` call at Clean.py:27 is outside the `try` of Clean.py:29-32 (`ParseFundingOfLetters`).
- `estimate_size` truncates with `int()` at Clean.py:46. It does not round (`EstimateSizeSpec`).
- The percentage step strips no whitespace before it matches the null tokens (Clean.py:13-15), so `" nan "` is not one of them. Python's `float()` at Clean.py:16 strips whitespace itself when it converts.
- Negative amounts pass through: `float("-5")` at Clean.py:30 gives -5.0. So `ParseFundingNonNegative` holds only for text without a minus sign.

## Model

| member | source | states |
|---|---|---|
| Clean.CleanLayoffData | Clean.py:3-70 | Updates the caller's table in place and returns that same table, or the first `ValueError`. The new columns are exactly `Cleaned` of the old ones, including the partial update a funding error leaves behind. On success every column has one entry per row. |
| Clean.LayoffTable.constructor | Clean.py:3 | A table as read from the file: the given raw columns and none of the derived ones. |
| Clean.CleanedRaises | Clean.py:11-35 | Cleaning raises exactly when some percentage cell or some funding cell does. A percentage error leaves the table untouched. A funding error leaves every column but the percentages untouched. The error is that of a failing cell. |
| Clean.CleanedShape | Clean.py:3-70 | Cleaning adds, drops and reorders no rows, fills every derived column, and keeps company, date, total and raw funding as they were. |
| Clean.CleanedPlaces | Clean.py:67-68 | After cleaning, country and location are never null. A known value is kept and a null one becomes "Unknown". |
| Clean.CleanedAmounts | Clean.py:11-35 | A cleaned percentage is a float or null, and one that already was is kept. Null funding gives null. Funding that is already a number gives that number. |
| Clean.CleanedCalendar | Clean.py:38-40 | Year, month and quarter are null exactly when the date is. Otherwise the month is in 1..12 and the quarter is (month-1)/3+1 of the same year. |
| Clean.CleanedSizes | Clean.py:43-64 | The size estimate is present exactly when total and percentage are and the percentage is positive. The category is Unknown, Small, Mid or Large exactly as the estimate is null, <500, 500..4999 or >=5000. |
| Clean.CleanedIdempotent | Clean.py:3-70 | Cleaning an already cleaned table changes nothing and raises nothing. |
| Clean.ApplyAll | Clean.py:16 | Converting a whole column succeeds exactly when every cell converts. The result holds each cell's value, and a failure carries the error of the first cell that fails. |
| Clean.CleanPercentage | Clean.py:11-17 | One cell through `astype(str)`, deleting `%`, mapping `nan`/`None`/empty text to null, and `astype(float)`. Leftover text that does not convert is a `ValueError`. Its properties are the `CleanPercentage*` lemmas. |
| Clean.ShowIsNoNullToken | Clean.py:13-15 | The text of a float contains no `%` and is none of `nan`, `None` or the empty text. |
| Clean.CleanPercentageKeepsCleaned | Clean.py:11-17 | A float or a null passes through the percentage step unchanged. |
| Clean.CleanPercentageIdempotent | Clean.py:11-17 | Only text can raise. A cleaned cell is never text, and cleaning it again gives the same cell. |
| Clean.CleanPercentageOfFormatted | Clean.py:11-17 | A number written with a trailing `%` cleans to that number. |
| Clean.CleanPercentageExample | Clean.py:11-17 | "10%" cleans to 10.0. |
| Clean.CleanPercentageRejects | Clean.py:13-16 | Text that, without its `%` signs, is not a null token and holds a character no number has, raises `ValueError` on that text. |
| Clean.CleanedRejectsPercentage | Clean.py:11-17 | One such percentage cell makes the whole call raise and leaves every column as it was. |
| Clean.ParseFunding | Clean.py:20-32 | `parse_funding`: null stays null; other cells go through `FundingText` and `FundingOfText`. |
| Clean.FundingText | Clean.py:23 | `str(value)` without `$` and `,`, upper-cased. |
| Clean.FundingOfText | Clean.py:24-32 | The branch on `M`, then `B`, scaled and unguarded; otherwise a guarded plain read that gives null on failure. |
| Clean.Scaled | Clean.py:25-27 | `float(t) * factor`, raising `ValueError` when `t` does not convert. |
| Clean.ParseFundingRaisesOnlyWithSuffix | Clean.py:20-32 | A cell raises exactly when it is not null, its text holds `M` (or, failing that, `B`) and the rest does not convert. Text with neither letter never raises: it is a number, or null exactly when it does not convert. |
| Clean.ParseFundingOfFormatted | Clean.py:20-32 | An optional `$`, a number and an optional M/m/B/b suffix give the number, times a million for M or a billion for B. |
| Clean.ParseFundingOfNumber | Clean.py:20-32 | A cell that already holds an amount parses to the same amount. |
| Clean.ParseFundingBothSuffixes | Clean.py:24-27 | M takes precedence over B: text holding both loses only its Ms and always raises. |
| Clean.ParseFundingNonNegative | Clean.py:20-32 | Text without a minus sign never gives a negative amount. |
| Clean.ParseFundingOfThousand | Clean.py:23-32 | "$1,000" loses `$` and `,` and gives 1000.0. |
| Clean.ParseFundingOfMillionsExample | Clean.py:24-25 | "$1.5M" gives 1,500,000. |
| Clean.ParseFundingOfBillionsExample | Clean.py:23-27 | "$2b" is upper-cased and gives 2,000,000,000. |
| Clean.ParseFundingOfNotApplicable | Clean.py:28-32 | "N/A" has neither suffix, fails to convert inside the `try`, and gives null. |
| Clean.ParseFundingOfLetters | Clean.py:26-27 | "ABC" holds a B, leaves "AC", and raises `ValueError`. |
| Clean.FundingOfTextNonNegative | Clean.py:24-32 | Normalised text without a minus sign never gives a negative amount. |
| Clean.Trunc | Clean.py:46 | Python's `int()` on a float: truncation toward zero. |
| Clean.EstimateSize | Clean.py:43-49 | `estimate_size` on one row. Its properties are `EstimateSizeSpec`. |
| Clean.Categorize | Clean.py:54-62 | `categorize_size`: Unknown for null, then Small, Mid and Large at the thresholds 500 and 5000. Its properties are `CategorizeBoundaries`. |
| Clean.EstimateSizeSpec | Clean.py:43-49 | The estimate is present exactly when both inputs are and the percentage is positive. For a non-negative total it is the largest n with n*pct <= 100*total, truncated rather than rounded. A negative total is truncated toward zero. |
| Clean.DerivedColumnsExample | Clean.py:38-62 | 100 laid off at 10 percent estimates 1000 employees, which is Mid. 2023-03-15 is in 2023Q1. |
| Clean.CategorizeBoundaries | Clean.py:54-62 | 499 is Small, 500 and 4999 are Mid, 5000 is Large and null is Unknown. The four labels are distinct. |
| Clean.QuarterOfDate | Clean.py:40 | `to_period('Q')` of one date: its year and quarter (month-1)/3+1. |
| Clean.YearOf | Clean.py:38 | `.dt.year`, null for a null date. |
| Clean.MonthOf | Clean.py:39 | `.dt.month`, null for a null date. |
| Clean.QuarterOf | Clean.py:40 | `.dt.to_period('Q')`, null for a null date. Its properties are `CalendarSpec` and `SameQuarter`. |
| Clean.FillUnknown | Clean.py:67-68 | `fillna('Unknown')` on one cell. |
| Clean.Sizes | Clean.py:51 | `df.apply(estimate_size, axis=1)`: one estimate per row, from that row's total and cleaned percentage. |
| Clean.Cleaned | Clean.py:3-70 | The whole cleaning as a function of the columns: the outcome `CleanLayoffData` is proved against, with the partial table a raise leaves. |
| Clean.Derived | Clean.py:35-68 | The column assignments after the two steps that can raise. |
| Clean.CalendarSpec | Clean.py:38-40 | Year, month and quarter are null exactly when the date is. The quarter's year is the date's year and its three months contain the month. |
| Clean.SameQuarter | Clean.py:40 | Two dates share a quarter exactly when they share the year and the three-month block. |
| Numerals.ParseShow | Clean.py:13-16 | `float(str(x))` gives back x. |
| Numerals.ParseRejects | Clean.py:16 | Text holding a character that cannot occur in a number or in "nan" does not convert. |
| Numerals.ParseNegativeNeedsMinus | Clean.py:25-30 | Only text with a minus sign converts to a negative number. |
| Numerals.Parse | Clean.py:16 | Python's `float()` on text: a numeral, nan, or malformed. Its properties are `ParseShow`, `ParseRejects` and `ParseNegativeNeedsMinus`. |
| Numerals.Show | Clean.py:13 | `str()` of a float, as the numeral it denotes. `ParseShow` is its inverse. |
| Strings.RemoveKeeps | Clean.py:23 | `replace(c, '')` deletes every `c` and keeps every other character. |
| Strings.UpperAt | Clean.py:23 | `upper()` maps each character through the ASCII upper-case map. |
| Strings.Remove | Clean.py:14 | `str.replace(c, '')`: no `c` is left and the text does not grow. Its properties are `RemoveKeeps`. |
| Strings.Upper | Clean.py:23 | `upper()` on ASCII letters, keeping the length. Its properties are `UpperAt`. |
| Strings.Strip | Clean.py:16 | The whitespace strip `float()` applies. Its properties are `StripEnds` and `StripKeeps`. |
| Strings.StripEnds | Clean.py:16 | The whitespace strip that `float()` applies leaves text that neither starts nor ends with whitespace. |
| Strings.StripKeeps | Clean.py:16 | The strip keeps every non-whitespace character and adds none. |
| Metrics.CleanedRowsHaveLocations | scripts/metrics.py:61-64 | After cleaning every row has a location, so the fragility `dropna` keeps exactly the rows with a company and a percentage. |
| Tables.FilterMap | scripts/metrics.py:5-14 | The filtered and scored rows are exactly the images of the rows that satisfy the mask. |
| Tables.FilterMapSnoc | scripts/metrics.py:5-14 | Filtering builds its result row by row: each row that satisfies the mask is kept once for each time it occurs, in order, and no other row is. |
| Tables.Filter | scripts/metrics.py:5-11 | `df[mask]`: the rows that satisfy the mask, in order. |
| Tables.Group | scripts/metrics.py:17 | The rows of one `groupby` group: a row is in it exactly when its key is that key. |
| Tables.Keys | scripts/metrics.py:17 | Group keys are distinct, and a key is listed exactly when its group is non-empty. |
| Tables.SortDesc | scripts/metrics.py:25 | The sorted table is a permutation of its input, ordered by non-increasing score. |
| Tables.AggregateSorted | scripts/metrics.py:16-27 | Grouping, summarising and sorting gives exactly one row per non-null key with rows, each the summary of its group, in non-increasing score order. |
| Tables.DedupSpec | scripts/metrics.py:35 | `drop_duplicates` keeps every row once and adds none. |
| Tables.Dedup | scripts/metrics.py:35 | `drop_duplicates`: no longer than its input. Its properties are `DedupSpec`. |
| Tables.Aggregate | scripts/metrics.py:16-24 | `groupby(key).agg(...)`: one summary per non-null key. Its properties are `AggregateSorted`. |
| Tables.Sum | scripts/metrics.py:19 | `sum()` over a group. |
| Tables.Mean | scripts/metrics.py:20 | `mean()` over a non-empty group: the sum divided by the count. |
| Metrics.ScoreEfficiency | scripts/metrics.py:13-14 | Keeps the company, total, percentage and funds of the row. `layoffs_per_million` times funds is total times a million. The score times the percentage is `layoffs_per_million`. |
| Metrics.EfficiencyRows | scripts/metrics.py:5-14 | The scored rows are exactly the scores of the rows with total, percentage and funds present and percentage and funds positive. |
| Metrics.EfficiencyRowsSnoc | scripts/metrics.py:5-14 | `df_eff` keeps each qualifying row once for each time it occurs, in order, and no other row. |
| Metrics.SummariseEfficiency | scripts/metrics.py:18-24 | The `agg` of one company's group: sums of total and funds, means of percentage, per-million and score. |
| Metrics.Efficiency | scripts/metrics.py:4-28 | `calculate_layoff_efficiency`. Its properties are `EfficiencySpec`. |
| Metrics.EfficiencySpec | scripts/metrics.py:16-27 | For any company k: the table has a row for k exactly when some qualifying row names k, and no two rows share a company. Each row holds the sums of totals and funds and the means of percentage, per-million and score over the company's qualifying rows. Rows are ordered by non-increasing mean score. The table is empty exactly when no qualifying row names a company. |
| Metrics.EfficiencyExample | scripts/metrics.py:13-14 | 100 laid off, 5,000,000 raised and 10 percent give 20 per million and a score of 2. |
| Metrics.CalculateLayoffInstability | scripts/metrics.py:31-41 | Overwrites the caller's `quarter` column with the quarter of each date and changes no other column. Returns the instability table of the new column. |
| Metrics.QuartersOf | scripts/metrics.py:34-35 | A company's quarters are distinct and are exactly those in which it appears. |
| Metrics.CountIsQuarters | scripts/metrics.py:34-37 | After `dropna` and `drop_duplicates`, a company's group size is its number of distinct quarters. |
| Metrics.QuartersAtMostRows | scripts/metrics.py:34-37 | A company has no more distinct quarters than rows. |
| Metrics.SeenIffSighted | scripts/metrics.py:34-36 | A company has a group exactly when it appears with some quarter. |
| Metrics.InstabilitySpec | scripts/metrics.py:33-40 | For any company k: the table has a row for k exactly when k is seen in some quarter, and no two rows share a company. Rows are ordered by non-increasing score. The table is empty exactly when no row has both company and quarter. |
| Metrics.Instability | scripts/metrics.py:33-41 | The aggregation of `calculate_layoff_instability` once the quarter column is written. Its properties are `InstabilitySpec` and `InstabilityScores`. |
| Metrics.InstabilityScores | scripts/metrics.py:33-40 | A company's score is its number of distinct quarters: at least 1, and at most its number of rows. |
| Metrics.InstabilityOfOneCompany | scripts/metrics.py:33-40 | Rows of a single company give a one-row table holding its number of distinct quarters. |
| Metrics.InstabilityExample | scripts/metrics.py:32-40 | Dates 2023-01-15, 2023-02-20 and 2023-04-01 give a score of 2. |
| Metrics.RateSeverity | scripts/metrics.py:50 | Keeps the company. The index is 0 when the percentage is 0, or when the total is 0 and ln(1) = 0. It is non-negative when the percentage and ln(total+1) are. |
| Metrics.SeverityRows | scripts/metrics.py:45-50 | The indexed rows are exactly the indices of the rows with percentage and total present. |
| Metrics.SeverityRowsSnoc | scripts/metrics.py:45-50 | `df_filtered` keeps each qualifying row once for each time it occurs, in order, and no other row. |
| Metrics.SummariseSeverity | scripts/metrics.py:53-54 | The mean severity index of one company's group. |
| Metrics.Severity | scripts/metrics.py:44-58 | `calculate_layoff_severity`, with `np.log` as the parameter `ln`. Its properties are `SeveritySpec`. |
| Metrics.SeveritySpec | scripts/metrics.py:52-57 | For any company k: the table has a row for k exactly when some qualifying row names k, and no two rows share a company. Each holds the mean index of the company's qualifying rows. Rows are ordered by non-increasing index. The table is empty exactly when no qualifying row names a company. |
| Metrics.SeverityOfCompany | scripts/metrics.py:52-54 | A company's severity is the mean of its group's indices. |
| Metrics.SeverityOfNoLayoffs | scripts/metrics.py:50-54 | A company whose qualifying rows all report zero laid off has severity 0. |
| Metrics.SeverityNonNegative | scripts/metrics.py:50-54 | With ln non-negative from 1 on, and percentages and totals non-negative, every severity is non-negative. |
| Metrics.PlacementOf | scripts/metrics.py:63-64 | A usable row's location, company and percentage, unwrapped. |
| Metrics.Placements | scripts/metrics.py:63-64 | The usable rows are exactly the rows with location, company and percentage present. |
| Metrics.PlacementsSnoc | scripts/metrics.py:63-64 | `dropna()` keeps each usable row once for each time it occurs, in order, and no other row. |
| Metrics.CompaniesAt | scripts/metrics.py:70 | The distinct companies with a usable row at a location, read from the raw rows. |
| Metrics.CompanyMeansSpec | scripts/metrics.py:65-67 | The per-(location, company) means have distinct keys. Each averages its pair's percentages. There is one for every pair seen, and no other. |
| Metrics.CompanyMeans | scripts/metrics.py:62-67 | The per-(location, company) mean percentages. Its properties are `CompanyMeansSpec`. |
| Metrics.SummariseLocation | scripts/metrics.py:68-75 | A location's `nunique` of companies, mean of the per-company means, and their product. |
| Metrics.Fragility | scripts/metrics.py:61-77 | `calculate_fragility_index`. Its properties are `FragilitySpec` and `FragilityOfLocation`. |
| Metrics.LocationSeenIffPlaced | scripts/metrics.py:63-68 | A location has per-company means exactly when some usable row is there. |
| Metrics.FragilitySpec | scripts/metrics.py:61-77 | For any location k: the table has a row for k exactly when some usable row is at k, and no two rows share a location. Rows are ordered by non-increasing index. The table is empty exactly when no row is usable. |
| Metrics.MeanCompaniesDistinct | scripts/metrics.py:65-70 | The per-company means at one location name different companies. |
| Metrics.MeanCompaniesAre | scripts/metrics.py:65-70 | The companies among a location's means are exactly those with a usable row there. |
| Metrics.CompaniesOfLocation | scripts/metrics.py:68-70 | `nunique` of the companies equals the number of per-company means and the number of distinct companies at the location. |
| Metrics.SummaryIndex | scripts/metrics.py:71-75 | With distinct companies, count times mean is the sum of the per-company means. |
| Metrics.FragilityOfLocation | scripts/metrics.py:68-76 | A location's row counts its distinct companies and averages their per-company mean percentages. Its index is the sum of those means. |

## Left out

- The first date step is not modelled: `pd.to_datetime(..., errors='coerce')` text parsing is a library call. Dates come in already parsed, as `Option<Date>`, and an unparseable date is `None`.
- `date_added` is not modelled: it is only re-parsed and never read again.
- The `industry` and `stage` columns, `Main.py` and the Streamlit pages are not modelled. They are I/O and presentation.
- Python's `float()` is modelled on decimal text only: an optional sign, ASCII digits with an optional point, surrounding whitespace, and `nan` in any case. Exponents, `inf`/`infinity`, digit-group underscores and non-ASCII Unicode digits are treated as non-numeric.
- `upper()`/`lower()` map ASCII letters only. Non-ASCII case mapping is not modelled.
- Floating point is not modelled: amounts are exact reals, so IEEE rounding, overflow and `ZeroDivisionError` do not arise. This is also why the `except` of `estimate_size` never fires.
- The natural logarithm is a parameter `ln` of the severity functions. Its numeric definition is not modelled.
- `str(x)` of a float that was not read from text is not modelled: a float is held as the numeral it was read from, and is written back as that numeral.
- Group keys come in order of first appearance and the sort is a stable insertion sort. pandas sorts group keys and uses an unstable sort, so the relative order of rows with equal scores is not modelled. Every lemma states only the non-increasing order.
- Quarters are (year, quarter) values, not pandas `Period` objects with text labels such as `2023Q1`.
- Metrics.CalculateLayoffInstability: takes the already-parsed `date` column, so the `to_datetime` re-parse on line 32 is the identity here.
- Clean.ParseFundingNonNegative: holds only for text without a minus sign, because the code does read negative amounts.
- `apply` on an empty frame is not modelled separately: empty columns give empty derived columns.
