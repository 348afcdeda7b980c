# Bike-sharing dashboard: the filter-and-aggregate pipeline

`Dashboard/dashboard.py` is a Streamlit page that loads two cleaned tables of a
bike-sharing dataset: one row per day and one row per hour. The user picks a
date range, and both tables are cut down to it. The page then draws charts
from tables it derives from the cut-down data. This project models the part
of the script that computes those chart tables, and proves what each step
promises:

- **Date filter** (`main_day_df`, `main_hour_df`). A boolean mask
  `start <= date <= end` keeps the rows in range in their original order.
  `DateFilter.Filter` is written once, generically over the row type, and
  applied to both tables.
- **Season/weather totals** (`weather_season_users`).
  `groupby(['season', 'weather_condition']).agg({'total_users': 'sum'})`
  followed by `reset_index()`. The weather code is then mapped through
  `{'1': 'Cerah', '2': 'Berkabut', '3': 'Hujan'}`. An unknown code maps to a
  missing value, because that is what `Series.map(dict)` does.
- **Hourly usage by day type** (`hourly_usage`).
  - The hourly rows are left-merged on `date` with the daily `workingday`
    flag.
  - Each row gets the day type `'Hari Kerja'` when the flag is 1, and
    `'Hari Libur'` otherwise.
  - `total_users` is averaged per `(hr, day_type)`.

`GroupBy` models pandas' `groupby(...).agg(...)` on a two-column key:
- There is one group per key present.
- Groups come out sorted by key (pandas' default `sort=True`): the integer
  column first, then the string column in code-point order.
- Each group keeps the sum and the count of its values. A mean is sum over
  count.

`Dashboard.Refresh` is one run of the script for a chosen range. It cuts both
tables to the range and builds the two chart tables from the cut-down tables.

Dates are modelled as integers (day numbers); see "## Left out" for what
that assumes of the data.

Choices the model makes, all following the code:
- The labels are the code's own Indonesian ones: `Cerah`/`Berkabut`/`Hujan`
  for weather codes "1"/"2"/"3", and `Hari Kerja`/`Hari Libur` for the day
  types.
- An hourly row whose date has no daily row is kept and becomes
  `'Hari Libur'`: the left merge leaves its flag missing and `x == 1` is
  false for a missing value (`HourlyUsage.DayTypedRows`,
  `Dashboard.SelectedHoursDayType`).
- pandas sorts the group keys, so both chart tables come out ordered by
  their key columns (`SeasonWeather.TotalsSorted`, `HourlyUsage.MeansSorted`).

## Model

| member | source | states |
|---|---|---|
| DateFilter.Filter | Dashboard/dashboard.py:28-31 | the result is no longer than its input and every kept row's date is inside [start, end], both ends included; FilterSelects gives the exact selection |
| DateFilter.FilterSelects | Dashboard/dashboard.py:28-31 | `Filter`: the filter keeps exactly the rows in range: its k-th row is the input row at the k-th in-range position, positions strictly increase (original order, no duplicates), and a position is selected iff its date is in range |
| DateFilter.FilterNarrower | Dashboard/dashboard.py:28-31 | `Filter`: filtering a wider range's result with a narrower range equals filtering directly with the narrower range, so a narrower range selects a subsequence |
| DateFilter.FilterIdempotent | Dashboard/dashboard.py:28-31 | `Filter`: filtering twice with the same range changes nothing |
| GroupBy.AggregateSpec | Dashboard/dashboard.py:40-42 | `Aggregate`: the group-by output is strictly sorted by key, has exactly the input's keys, and for every key holds the sum and the number of that key's values; sums add up to the input total and counts to the number of input rows |
| GroupBy.AggregateGroups | Dashboard/dashboard.py:40-42 | `Aggregate`: one group per distinct key; each group's sum and count are those of the (non-empty) values with its key |
| GroupBy.AggregateTwo | Dashboard/dashboard.py:40-42 | `Aggregate`: two rows with keys in order group into two single-row groups in that order |
| GroupBy.MeanWithin | Dashboard/dashboard.py:102 | `Mean`: a mean lies between the minimum and maximum of its values, and the mean of one value is that value |
| SeasonWeather.TotalsSorted | Dashboard/dashboard.py:40-42 | `SeasonWeatherTotals`: the totals table is ordered by season, then by weather code as a string |
| SeasonWeather.TotalsOnePerPair | Dashboard/dashboard.py:40-42 | `SeasonWeatherTotals`: exactly one row per (season, weather code) pair present among the days; no row for an absent pair |
| SeasonWeather.TotalsPerPair | Dashboard/dashboard.py:40-42 | `SeasonWeatherTotals`: each row's total is the sum of total_users over the days with its season and code |
| SeasonWeather.TotalsConserved | Dashboard/dashboard.py:40-42 | `SeasonWeatherTotals`: the totals add up to the total users of all input days |
| SeasonWeather.WeatherLabel | Dashboard/dashboard.py:45-46 | "1", "2", "3" map to Cerah, Berkabut, Hujan (each iff), and any other code maps to a missing label |
| SeasonWeather.Relabel | Dashboard/dashboard.py:46 | relabelling keeps the length, season and total of every row, and replaces only the weather column by its label |
| SeasonWeather.RelabelKeepsTotal | Dashboard/dashboard.py:46 | `Relabel`: the label map does not change the sum of totals |
| SeasonWeather.RelabelKeepsPairsDistinct | Dashboard/dashboard.py:45-46 | `Relabel`: with known codes, every row gets a label, and distinct (season, code) rows keep distinct (season, label) pairs |
| SeasonWeather.SeasonWeatherUsageConserved | Dashboard/dashboard.py:40-46 | `SeasonWeatherUsage`: the labelled chart table's totals add up to the total users of the days |
| SeasonWeather.SeasonWeatherUsageDistinct | Dashboard/dashboard.py:40-46 | `SeasonWeatherUsage`: when every code is known, no two bars of the chart table share a (season, label) |
| HourlyUsage.JoinOne | Dashboard/dashboard.py:98 | an hourly row yields one merged row per matching daily row, carrying the k-th matching flag, or exactly one row with a missing flag when nothing matches; every merged row carries the hourly row's date, hour and users |
| HourlyUsage.MatchesUnique | Dashboard/dashboard.py:98 | `Matches`, the daily flags `LeftJoin` looks up: with unique daily dates, a date finds no flag iff no daily row has it, and otherwise exactly that row's flag |
| HourlyUsage.LeftJoinSound | Dashboard/dashboard.py:97-98 | `LeftJoin`: the left merge is at least as long as the hourly table, every hourly row's date, hour and users appear in it, every merged row carries those of some hourly row, and every flag it attaches is the workingday of a daily row with the same date |
| HourlyUsage.LeftJoinOneToOne | Dashboard/dashboard.py:97-98 | `LeftJoin`: with unique daily dates, the merge has one row per hourly row, in order, with its date, hour and users; the flag is missing iff no daily row has the date, and otherwise is that row's workingday |
| HourlyUsage.Classify | Dashboard/dashboard.py:99 | each merged row keeps hour and users, and its day type is 'Hari Kerja' exactly for flag 1, 'Hari Libur' for any other or missing flag |
| HourlyUsage.DayTypedRows | Dashboard/dashboard.py:97-99 | `DayTyped`: with unique daily dates: one typed row per hourly row, in order; 'Hari Kerja' iff the day of its date has workingday 1; always one of the two types; 'Hari Libur' when no day has its date |
| HourlyUsage.MeansSorted | Dashboard/dashboard.py:102 | `HourlyMeans`: the hourly table is ordered by hour, then by day type as a string |
| HourlyUsage.MeansOnePerPair | Dashboard/dashboard.py:102 | `HourlyMeans`: exactly one row per (hour, day type) pair present; none for absent pairs |
| HourlyUsage.MeansWithinGroup | Dashboard/dashboard.py:102 | `HourlyMeans`: each row's value is the mean of total_users over the non-empty group with its hour and day type, lies between the group's minimum and maximum, and equals the single value of a one-row group |
| Dashboard.EmptySelectionEmptyViews | Dashboard/dashboard.py:28-102 | `Refresh`: each chart table is empty iff its selected table is empty (no error), and a reversed range gives two empty tables |
| Dashboard.SelectedDatesUnique | Dashboard/dashboard.py:28-29 | `SelectDays`: restricting the daily table to a range keeps its dates unique |
| Dashboard.SelectionKeepsDay | Dashboard/dashboard.py:28-29 | `SelectDays`: for a date inside the range, the restricted daily table has a (working) day of that date iff the full table has |
| Dashboard.SelectedHoursDayType | Dashboard/dashboard.py:28-99 | `SelectHours`, `SelectDays` and `DayTyped` composed as in `Refresh`: every selected hourly row gets one typed row, in order, 'Hari Kerja' iff the full daily table has a working day of its date, 'Hari Libur' when it has no row of that date |
| Dashboard.ExampleSelection | Dashboard/dashboard.py:28-31 | `SelectDays`, `SelectHours`: the full range of the two-day example selects both tables unchanged |
| Dashboard.ExampleSeasonWeather | Dashboard/dashboard.py:28-46 | `Refresh`: two season-0 days, code 1 with 100 users and code 2 with 50, give the bars (0, Cerah, 100) and (0, Berkabut, 50) |
| Dashboard.ExampleDayTyped | Dashboard/dashboard.py:97-99 | `DayTyped`: the hour on the working day is 'Hari Kerja', the hour on the other day 'Hari Libur' |
| Dashboard.HourlyMeansOfTwoDayTypes | Dashboard/dashboard.py:102 | `HourlyMeans`: one working-day row and one holiday row at the same hour average to their own values, working day first |
| Dashboard.ExampleHourlyUsage | Dashboard/dashboard.py:28-102 | `Refresh`: the two hour-8 rows (30 users on the working day, 10 on the holiday) give (8, Hari Kerja, 30) and (8, Hari Libur, 10) |

## Left out

- Reading the CSV files and `pd.to_datetime`: the model starts from parsed rows, and malformed dates are not modelled.
- Dates as whole days: the model assumes every `date` value in both tables is a midnight timestamp, so a date is a day number. The script itself compares whatever `pd.to_datetime` parsed with midnight `pd.Timestamp`s (lines 14-15, 28-31). A time of day in the hourly `date` column would drop the end day's later hours from the filter and make the merge at line 98 find no daily row; the model does not capture that.
- The Streamlit sidebar, date picker and image: the chosen range is a parameter of `Dashboard.Refresh`.
- The correlation matrix and the scatter plots (lines 63-91): they are floating-point statistics and pure presentation.
- All plotting, tick labels, legends and titles, including the season display labels of lines 55-56: presentation only.
- `astype(str)` on the weather column (line 37): the model takes the code as a string already. Any other spelling of a code (such as "1.0") is just an unknown code and gets a missing label.
- The temp, humidity and windspeed columns: no modelled table uses them.
- Missing values in the input columns: pandas drops missing group keys by default, and the model has none.
- 64-bit integer overflow of the sums: totals are unbounded naturals.
- GroupBy.MeanWithin: the mean is exact in `real`, not pandas' float64, so rounding is not modelled.
- HourlyUsage.LeftJoinOneToOne: one-to-one only when daily dates are unique. Without unique dates, `HourlyUsage.LeftJoin` keeps pandas' duplication (one row per matching daily row, in daily order), and `HourlyUsage.LeftJoinSound` is all that is proved.
