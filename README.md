# Voter dashboard pipeline (VoteLatham) in Dafny

This project models the data pipeline of the District 29 voter dashboard
(`vote_latham.py`). The pipeline has five steps:

1. Each voter's race code is replaced by a race label from a fixed table.
2. The voter's age in whole years is computed from the birth date and today's date.
3. The age is put into one of four brackets.
4. The user's four selections filter the rows.
5. The kept rows are counted per (race, gender, party). These counts drive the treemap.

Modules:

- `Wrappers` (`wrappers.dfy`): the `Option` type. A missing race label is `None`.
- `Derive` (`derive.dfy`) covers steps 1 to 3:
  - the `Date` type and `CalculateAge`;
  - `CategorizeAge` and the bracket labels;
  - the race table `RaceMapping` and `RaceLabel`;
  - the raw row `RawVoter` and the derived row `Voter`;
  - the method `Augment`, which adds the derived columns to the loaded table. `DeriveTable` specifies it.
- `Filter` (`filter.dfy`) covers step 4. `Criteria` holds the selections. `Matches` is the four-way conjunction and `FilterRows` is the row selection.
- `Order` (`order.dfy`): Python's ordering of strings. The first differing code point decides, and a proper prefix comes first. The grouping sorts its keys with this order.
- `Treemap` (`treemap.dfy`) covers step 5:
  - `CountTree` is the group-and-size step. It builds groups by sorted insertion.
  - `TreemapData` runs the whole pipeline.
  - a worked example with four voters.

Today's date is a parameter everywhere; the model never reads a clock. Birth dates arrive already parsed as (year, month, day).

Two behaviours of the code are modelled as written:

- An unmapped race code gives a missing label (`None`). No "unknown" label is produced.
- The race selection may contain the missing label. `isin` matches a missing value against a missing value in the selection, and the race choices are the column's distinct values, which include the missing one.

Because of the second point, a row with a missing race label can pass the filter. The grouping then drops it, since `groupby` discards missing keys. So the treemap counts add up to the number of kept rows that have a race label (`CountTree`, `Keyed`). `TreemapTotal` shows they add up to all kept rows when every race code is in the table.

In `vote_latham.py` an unmapped race code gets no label and no "unknown" category (`RaceLabel` returns `None`). A birth date that fails to parse would put its row in "56+" (see "## Left out").

## Model

| member | source | states |
|---|---|---|
| Derive.CalculateAge | vote_latham.py:23-25 | The age is the year difference when today's (month, day) is on or after the birthday and one less when it is before. The comparison is lexicographic on (month, day). The age is the number of birthdays passed: the anniversary that many years on is on or before today, and the next one is after today. |
| Derive.AgeIsUnique | vote_latham.py:23-25 | Any year count with that anniversary property equals the computed age, so the age is exactly the whole years elapsed. |
| Derive.AgeAntitone | vote_latham.py:23-25 | For a fixed today, a later birth date never gives a greater age. |
| Derive.AgeNonNegative | vote_latham.py:23-25 | A birth date on or before today gives an age of at least zero. |
| Derive.CategorizeAge | vote_latham.py:28-36 | Every age, whatever its value, gets one of the four labels "18-28", "29-40", "41-55" and "56+". |
| Derive.CategorizeAgeExact | vote_latham.py:28-36 | Bracket k holds exactly the ages from threshold k-1 (inclusive) up to threshold k (exclusive). The thresholds are 29, 41 and 56, so each boundary age falls in the higher bracket. The brackets do not overlap. |
| Derive.CategorizeAgeMonotone | vote_latham.py:28-36 | If a <= b, the bracket position of a is at most that of b. |
| Derive.RaceLabel | vote_latham.py:11-20 | A code has a label exactly when it is in the table, and the label is the table's entry. |
| Derive.RaceLabelPreimage | vote_latham.py:58 | Read backwards: "Other" comes exactly from codes 1, 2, 6, 7 and 9, "African American" from 3, "Hispanic" from 4 and "White" from 5. Every other code gives no label. |
| Derive.DeriveRow | vote_latham.py:58-65 | A derived row keeps status, gender, party and birth date. Its race is the label of its code, its age is computed from its birth date, and its bracket is the bracket of that age. |
| Derive.DeriveTable | vote_latham.py:58-65 | The derived table has one row per loaded row, in the same order, and each row is derived from the one at its position. |
| Derive.Augment | vote_latham.py:58-65 | The column-assignment pass returns exactly the derived table. |
| Filter.FilterRows | vote_latham.py:77-80 | The result is no longer than the input. A row is in it if and only if it is in the input and all four predicates hold: race selected, gender selected, bracket selected, status equal to the selected one. |
| Filter.FilterIsSubsequence | vote_latham.py:77-80 | The kept rows are a subsequence of the input in their original order. |
| Filter.FilterAppend | vote_latham.py:77-80 | Filtering a concatenation gives the filtered parts in the same order. |
| Filter.FilterMultiplicity | vote_latham.py:77-80 | A matching row is kept as many times as it occurs in the input. A non-matching row is never kept. |
| Filter.FilterIdempotent | vote_latham.py:77-80 | Filtering again with the same selections changes nothing. |
| Filter.FilterEmptyIff | vote_latham.py:77-80 | The result is empty if and only if no row satisfies all four predicates. |
| Filter.EmptySelectionKeepsNothing | vote_latham.py:77-80 | An empty race, gender or age-bracket selection keeps no row. |
| Order.StrLessIff | vote_latham.py:83 | `StrLess` is Python's string `<`, which `groupby` uses to sort its keys: `a` is less than `b` exactly when, at some position where the two agree on everything before, `a` either ends while `b` goes on or has the smaller code point. |
| Order.StrLessTransitive | vote_latham.py:83 | Python's string order is transitive. |
| Order.StrLessTotal | vote_latham.py:83 | Of two different strings, one is always less than the other. |
| Treemap.KeyLessIrreflexive | vote_latham.py:83 | `KeyLess` orders the grouping keys by race, then gender, then party, each with Python's string order. No key is less than itself. |
| Treemap.KeyLessTransitive | vote_latham.py:83 | The key order is transitive. |
| Treemap.KeyLessTotal | vote_latham.py:83 | Of two different keys, one is always less than the other, so the sort by key is well defined. |
| Treemap.KeyOf | vote_latham.py:83 | A row has a grouping key exactly when its race label is present. The key is its (race, gender, party). |
| Treemap.InsertKeys | vote_latham.py:83 | Counting one more row with key k adds k to the emitted keys and nothing else. |
| Treemap.InsertSorted | vote_latham.py:83 | Counting one more row keeps the keys strictly ascending in (race, gender, party) order. |
| Treemap.InsertCount | vote_latham.py:83 | Counting one more row with key k raises the count of k by one and leaves every other key's count as it was. |
| Treemap.InsertTotal | vote_latham.py:83 | Counting one more row raises the sum of the counts by one. |
| Treemap.InsertPositive | vote_latham.py:83 | Counting one more row never makes a group with count zero. |
| Treemap.CountTree | vote_latham.py:83 | The groups are sorted by key with no key repeated, and every count is at least 1. The count for each key is the number of rows with that key. The counts sum to the number of rows that have a race label. |
| Treemap.CountOfSorted | vote_latham.py:83 | In the sorted group table, the group with a given key holds the whole count for that key. |
| Treemap.CountTreeGroups | vote_latham.py:83 | Each emitted group's count equals the number of rows with its key and is at least 1. Some row has that key, so only keys that occur are emitted. |
| Treemap.CountTreeCoversRows | vote_latham.py:83 | Every row with a race label is counted under its own key. |
| Treemap.TreemapData | vote_latham.py:58-83 | The whole flow (derive the columns, filter, group and count) gives groups sorted by key with no key repeated, and every count is at least 1. The count for each key is the number of kept rows with that key. The counts add up to at most the number of loaded rows. |
| Treemap.TreemapTotal | vote_latham.py:58-83 | When every race code is in the table, the treemap counts add up to the number of rows the filter keeps. |
| Treemap.ActiveVotersExample | vote_latham.py:58-83 | Worked example with four voters, one inactive. Selecting status "ACT" gives three leaves of count 1: (African American, F, REP), (Hispanic, F, IND) and (White, M, DEM), in that order. |

## Left out

- Loading the CSV from S3 (`load_data`), its error report, and the `df is not None` guard (vote_latham.py:39-46, 56). These are network I/O and UI error reporting.
- All Streamlit widgets, the sidebar logo and titles, and the Plotly treemap figure and its layout (vote_latham.py:49-50, 68-74, 86-94). These are UI and third-party rendering. The selections are the `Criteria` parameter.
- The widgets' default selections, including the error raised when 'ACT' is absent from the status options (vote_latham.py:71-74). This is UI wiring.
- Parsing of birth dates with `errors='coerce'` (vote_latham.py:61). The model takes parsed dates. A date that fails to parse becomes NaT, and its age becomes NaN. NaN fails every `<` test in `categorize_age`, so the row would be labelled "56+". That floating-point path is not modelled.
- Reading the clock with `datetime.today()` (vote_latham.py:24). Today's date is a parameter.
- Missing gender or party values. Gender and party are modelled as present strings, so the grouping's dropping of rows with a missing gender or party is not modelled. Only a missing race label is modelled.
- Derive.Augment: pandas assigns the derived columns one at a time, each over the whole table. The method instead fills each row's derived fields in one pass. The resulting table is the same.
- Derive.Date: dates are any three integers. The calendar validity that Python's `datetime` enforces is not needed by any property here.
