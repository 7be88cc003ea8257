# Sentinel-1 scene sampler, in Dafny

`search_and_download_sentinel1.py` searches Earthdata for Sentinel-1 EW GRD
scenes over the Arctic. It picks a sample of them that is spread evenly over the
months of observation, and shows the picks on a map and in an HTML table. This
project models the computational core of that script and proves its properties:

- **`stratified_selection`** (module `Sampler`). It splits a sample size `n`
  over the `k` distinct observation months with `divmod(n, k)`. Every month
  gets `d` draws and the first `m` months get one more (`nsample`, an array
  updated in place). Each month's share is then drawn without replacement from
  that month's granules, and the draws are concatenated in month order. Also
  modelled:
  - its helper `get_observation_month` (module `Records`);
  - `np.random.choice(..., replace=False)`, as a nondeterministic choice with
    the three errors of numpy's legacy generator: an empty population, a size
    larger than the population, and a negative size.
- **`get_month_range`** (module `MonthRange`). It gives the first and the last
  day of a month as `%Y-%m-%d` strings. The last day comes from the Gregorian
  leap-year rule of `calendar.monthrange`.
- **`make_table`** (module `HtmlTable`). It sorts the scene rows in place by
  acquisition date, then appends one `<tr>` per row to the table body in a
  loop.

A granule is a `Records.Granule`. Its fields are:
- the month of the end of its acquisition interval;
- its native id;
- its ISO-8601 acquisition date;
- its formatted size;
- its thumbnail URL;
- its visualization URL.

The iteration order of `set(months)` is an explicit parameter `order`. It is any
duplicate-free sequence of exactly the months present. The script builds the set
twice. The first set is only counted to give `nmonths`, which equals `|order|`.
The second set is iterated to pair each month with its allotment, and `order` is
that iteration. Exceptions become `Failure` values of a `Result`:
- an empty input divides by zero in `divmod`;
- a negative `n` gives a month a negative draw size;
- a month with fewer granules than its allotment cannot be drawn from;
- `make_table` of an empty list has no `acquisition_date` column to sort by;
- `get_month_range` fails on a year or month that does not fit a C `int`
  (`OverflowError`), and then on a year outside 1..9999 or a month outside
  1..12 (`ValueError`).

## Model

| member | source | states |
|---|---|---|
| Records.ObservationMonths | search_and_download_sentinel1.py:94-96 | one month per granule, in input order, each the month that granule was observed in |
| Sampler.Allotment | search_and_download_sentinel1.py:117-119 | `k` allotments, non-increasing, no two differing by more than one |
| Sampler.AllotmentSum | search_and_download_sentinel1.py:117-119 | the allotments add up to exactly `n` |
| Sampler.AllotmentEntries | search_and_download_sentinel1.py:117-119 | every allotment is `n div k` or one more, and it is one more exactly for the first `n mod k` months |
| Sampler.AllotmentNonNegative | search_and_download_sentinel1.py:117-119 | no allotment is negative if and only if `n` is not negative |
| Sampler.AllotmentUnique | search_and_download_sentinel1.py:117-119 | any non-increasing sequence of `k` integers that sums to `n`, with first and last differing by at most one, is the allotment |
| Sampler.Allot | search_and_download_sentinel1.py:117-119 | the array filled with `d` and then incremented in place over its first `m` entries holds the allotment |
| Sampler.Gather | search_and_download_sentinel1.py:124 | fancy indexing: one element per position, the element at that position |
| Sampler.Partition | search_and_download_sentinel1.py:124 | definition: `aresults[months == month]` as positions, collected from the front |
| Sampler.PartitionSpec | search_and_download_sentinel1.py:124 | the partition holds the positions of all and only the granules observed in the month, in increasing order, none twice |
| Sampler.Choice | search_and_download_sentinel1.py:124 | fails exactly when the size exceeds the population or is negative. The error is the empty-population one when there is nothing to draw from, then the too-large one, then the negative one. Otherwise it returns exactly `size` items drawn without replacement |
| Sampler.MonthHasGranules | search_and_download_sentinel1.py:124-125 | every month that is iterated has at least one granule, so the empty-population error cannot occur in the sampler |
| Sampler.SubMultisetDistinct | search_and_download_sentinel1.py:124 | a draw without replacement from duplicate-free positions has no duplicates |
| Sampler.DistinctIffSingleOccurrences | search_and_download_sentinel1.py:124 | a sequence has no duplicates exactly when nothing occurs twice in its multiset |
| Records.MonthSet | search_and_download_sentinel1.py:115 | `set(months)`: a month is in it exactly when it is one of the observation months, and there are no more distinct months than granules |
| Sampler.OrderCountsMonths | search_and_download_sentinel1.py:115-116 | `nmonths` is the number of distinct observation months |
| Sampler.MonthsPresent | search_and_download_sentinel1.py:115-117 | there is a month to divide by exactly when the input is non-empty |
| Sampler.FeasibleIff | search_and_download_sentinel1.py:117-125 | a call can succeed exactly when there is a month, `n` is not negative, and no month's allotment exceeds its granules |
| Sampler.DrawMonth | search_and_download_sentinel1.py:124 | every granule drawn for a month was observed in that month |
| Sampler.DrawsInRange | search_and_download_sentinel1.py:124-125 | every drawn position is a granule of the input, of a month already handled |
| Sampler.Flatten | search_and_download_sentinel1.py:124-125 | definition: `chain.from_iterable`, the blocks one after the other |
| Sampler.FlattenMembers | search_and_download_sentinel1.py:124-125 | a position is in the concatenation exactly when it is in one of the blocks |
| Sampler.FlattenLength | search_and_download_sentinel1.py:124-125 | the concatenation is as long as the block lengths add up to |
| Sampler.DrawsSize | search_and_download_sentinel1.py:124-125 | the concatenated draws are as long as their allotments add up to |
| Sampler.DrawsDistinct | search_and_download_sentinel1.py:124-125 | draws without replacement from disjoint months never repeat a granule |
| Sampler.DrawsCount | search_and_download_sentinel1.py:124-125 | after the draws, each handled month contributes exactly its allotment and every other month nothing |
| Sampler.ExtendDraws | search_and_download_sentinel1.py:124-125 | a further month's draw extends the concatenation by exactly that draw |
| Sampler.StratifiedDrawProperties | search_and_download_sentinel1.py:99-127 | a complete stratified draw has exactly `n` granules, all from the input, none twice, and each month's allotment of that month |
| Sampler.StratifiedSelection | search_and_download_sentinel1.py:99-127 | succeeds if and only if the draw is feasible. It fails with the empty-input error, or with the error of the first month in order whose draw cannot be made. On success the sample is the concatenated draws: `n` granules of the input, none repeated, each month holding its allotment |
| MonthRange.IsLeap | search_and_download_sentinel1.py:65 | definition: the Gregorian rule of `calendar.isleap`, divisible by 4 and not by 100 unless by 400 |
| MonthRange.DaysInMonth | search_and_download_sentinel1.py:65 | a month has between 28 and 31 days |
| MonthRange.MonthLengths | search_and_download_sentinel1.py:65 | February has 29 days in a leap year and 28 otherwise; April, June, September and November have 30; the rest 31 |
| MonthRange.YearLength | search_and_download_sentinel1.py:65 | the month lengths add up to 366 in a leap year and 365 otherwise |
| MonthRange.MonthBounds | search_and_download_sentinel1.py:62-66 | fails exactly for a year outside 1..9999 or a month outside 1..12. The error is an overflow for a year, then a month, that does not fit a C `int`; then a bad year; then a bad month. Otherwise it gives two valid dates of that month, and the first is day 1. The last is the month's last valid day (this conjunct follows from how valid dates are defined) |
| MonthRange.FormatDate | search_and_download_sentinel1.py:67 | `strftime("%Y-%m-%d")`: ten characters, dashes at positions 4 and 7, decimal digits everywhere else |
| MonthRange.FormatDateRoundTrip | search_and_download_sentinel1.py:63-67 | a valid date formatted as `%Y-%m-%d` reads back as the same date |
| MonthRange.GetMonthRange | search_and_download_sentinel1.py:62-67 | fails exactly when `datetime` rejects the year or month, with the error `MonthBounds` gives (overflow, bad year or bad month). Otherwise returns two strings that read back as day 1 and the last day of the month |
| HtmlTable.TableRows | search_and_download_sentinel1.py:226 | definition: the data frame's rows, one per granule in input order |
| HtmlTable.TableValues | search_and_download_sentinel1.py:205-213 | definition: the row of a granule holds its id, date, size, thumbnail URL and visualization URL, in the order of the dict's keys |
| HtmlTable.Values | search_and_download_sentinel1.py:237 | definition: `scene.values`, the row's five fields in column order |
| HtmlTable.DataCells | search_and_download_sentinel1.py:237 | a row's data cells are its id, date and size, the two URLs dropped |
| HtmlTable.LexLeTotal | search_and_download_sentinel1.py:228 | any two date strings are comparable |
| HtmlTable.LexLeTransitive | search_and_download_sentinel1.py:228 | the string order is transitive |
| HtmlTable.LexLeAntisymmetric | search_and_download_sentinel1.py:228 | two strings each ordered before the other are equal |
| HtmlTable.SortByDate | search_and_download_sentinel1.py:228 | after sorting in place, the rows are in non-decreasing date order and are a permutation of the rows before |
| HtmlTable.Join | search_and_download_sentinel1.py:232 | definition: `sep.join(parts)`, the parts with the separator between each two consecutive ones |
| HtmlTable.JoinThree | search_and_download_sentinel1.py:240 | joining three parts puts the separator between the first and second and between the second and third |
| HtmlTable.JoinFour | search_and_download_sentinel1.py:232 | joining four parts puts the separator between each two consecutive parts |
| HtmlTable.TableHead | search_and_download_sentinel1.py:230-232 | definition: `table_head`, the four column titles joined inside one header row |
| HtmlTable.ThumbnailCell | search_and_download_sentinel1.py:238 | definition: the `<img>` element of the thumbnail URL, with its alignment and size limits |
| HtmlTable.ThumbnailLink | search_and_download_sentinel1.py:239 | definition: the thumbnail image wrapped in a link to the visualization URL that opens in a new tab |
| HtmlTable.RowHtml | search_and_download_sentinel1.py:237-240 | definition: one body row, the joined data cells followed by the thumbnail link cell |
| HtmlTable.TableBody | search_and_download_sentinel1.py:234-241 | definition: `table_body`, the rows' markup in the given order between the `<tbody>` tags |
| HtmlTable.Table | search_and_download_sentinel1.py:243 | definition: the table of rows in the given order, the header followed by the body |
| HtmlTable.RenderBody | search_and_download_sentinel1.py:234-241 | the loop that appends one row's markup at a time ends with the body of all the rows, in array order |
| HtmlTable.HeadCells | search_and_download_sentinel1.py:230-232 | the header is one row of exactly the four column titles, each in its own cell |
| HtmlTable.RowCells | search_and_download_sentinel1.py:237-240 | a body row holds the id, date and size cells, then one cell linking the thumbnail to the visualization URL |
| HtmlTable.BodyRowAt | search_and_download_sentinel1.py:235-241 | the body holds the `k`-th row's markup between the markup of the rows before and after it |
| HtmlTable.MakeTable | search_and_download_sentinel1.py:217-243 | fails exactly on an empty input. Otherwise it returns the table whose body rows are the input's rows in non-decreasing date order, each input row exactly once |

## Left out

- `search_sentinel1`, `earthaccess.login` and `search_data` (lines 70-82) are network and authentication calls. The input granules are a parameter.
- `make_map` and `spatial2polygon` (lines 130-187) are left out: they are map projections, polygons and plotting over floating-point coordinates.
- `create_html` (lines 246-317) is left out: it writes a file and opens a browser, and its header and footer are fixed text.
- The `os.environ` assignment (line 7) is environment setup.
- `get_observation_time` and `get_table_values` (lines 88-91, 190-214) read nested metadata dictionaries. A `Granule` carries the extracted month, date, size and URLs instead.
- The size formatting `f"{size:.2f}"` (line 210) is floating point; the size is an opaque string.
- The random number generator is not modelled. `Sampler.Choice` may return any draw without replacement of the requested size, with items in any order.
- The iteration order of `set(months)` is whatever CPython's set gives; it is the parameter `order`, and every result holds for every order.
- The `debug` branch of `make_table` (lines 223-224) is not modelled. It takes the plain list `test_entries` (line 44), which has no `sort_values`, so line 228 raises `AttributeError` on that path.
- The default `n=600` of `stratified_selection` is not modelled: the caller always passes `n`.
- Sampler.Allot: line 118 computes `nsample` as `np.ones(nmonths) * d` in float64 and then casts it to a 64-bit integer. The model uses exact unbounded integers. This agrees with the script only while `|d|` is at most 2^53. Above that, `d` is rounded. For `d` of 2^63 or more the cast is platform-dependent (negative on x86-64), and numpy would then raise its negative-size error where the model reports `InsufficientPopulation`. The limit is on `d`, not on `n`.
- HtmlTable.SortByDate: pandas' default sort is not stable, so the contract fixes only date order and the multiset of rows, not the order among rows with equal dates. The model sorts by insertion.
- HtmlTable.MakeTable: pandas rows are compared by the string order of their ISO-8601 dates; the model uses the same code-point order on `string`.
- MonthRange.FormatDate: `%Y` is written as four zero-padded digits. The C library's `strftime` on Linux (glibc) writes years below 1000 without padding; the model does not follow that.
- Sampler.Choice: the population is a sequence, so numpy's checks on the shape of `a` and the `p` argument are not modelled; the sampler passes neither.
- MonthRange.MonthBounds: the weekday that `calendar.monthrange` also returns is discarded by the script and not modelled.
