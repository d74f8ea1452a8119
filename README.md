# Wall of Shame, modelled in Dafny

The Wall of Shame is a daily accountability script. It runs once a day. It asks GitHub's GraphQL API
whether its user contributed anything on the current UTC date. If the user did not, it writes a
marker file `shames/shame_<YYYY-MM-DD>.txt`. It then recounts the markers and rewrites `README.md`
with three statistics:
- the total number of shameful days;
- the date of the last shame, or `Never`;
- the current discipline streak in days, or `🔥 Perfect Discipline!` when no marker exists.

This project models that script (`shame_logic.py`) and proves properties of the model:

- `wrappers.dfy`: `Option` and `Result`.
- `text.dfy` (module `Text`): the Python `str` behaviour the script depends on. This covers
  code-point order (what `sorted` uses), `str.replace(old, "")`, zero-padded `%0Nd` fields and
  `str(int)`, with order and round-trip lemmas.
- `dates.dfy` (module `Dates`): `datetime.date` for years 1 to 9999. This covers `toordinal()`,
  `isoformat()` and `strptime(s, "%Y-%m-%d")`, whose fields follow CPython's `%Y`, `%m` and `%d`
  patterns. It proves that ordinals order dates chronologically, that parsing an ISO string gives the
  date back, and that ISO strings sort exactly as their dates do.
- `contributions.dfy` (module `Contributions`): `has_contributed_today` as a method with the
  source's two nested loops and early return. It is proved against a predicate over the calendar.
- `shame_stats.dfy` (module `ShameStats`): the marker file names and `get_shame_stats`.
  `StatsOfListing` follows the code: filter, `sorted`, `len`, `replace`, `strptime`.
  `LedgerStats` is a reference definition over the set of names: the count and the greatest name.
  A lemma proves the two agree for every directory listing.
- `report.dfy` (module `Report`): the README template of `update_readme`. A reader takes the three
  embedded values back out, and a lemma proves that rendering and then reading gives the statistics
  back.
- `wall_of_shame.dfy` (module `WallOfShame`): class `Repository` holds the shame folder as a map
  from file name to content, and the README text. Its methods are `create_shame_file`, the
  directory listing, `get_shame_stats`, `update_readme` and `main` (`Run`). Lemmas describe what one
  daily run does to the folder.

Two behaviours of the code are worth stating plainly:
- The last shame is taken from the greatest marker file name under code-point order, not from the
  greatest date. From that name the code removes every occurrence of `shame_` and `.txt`, not just a
  prefix and a suffix. `ShameStats.LatestMarkerStats` proves that this is the latest marker date
  when every marker name is one the script wrote.
- When the last name does not parse, `strptime` raises `ValueError`. That ends `main` after the
  marker was written and before the README is rewritten. The model returns
  `Err(UnparsableDate(text))` and `Run` leaves the README unchanged.
- Line 16 of the source calls `datetime.now(datetime.timezone.utc)`. Here `datetime` is the class,
  so as written this line raises `AttributeError`. The model takes "today" as one explicit
  parameter: the current UTC date that lines 16, 74 and 81 all evidently intend.

## Model

| member | source | states |
|---|---|---|
| `Contributions.HasContributedToday` | shame_logic.py:48-62 | The answer is true exactly when the status is 200 and some day of some week has today's ISO date and a positive count; any other status answers false. |
| `Contributions.ContributedToday` | shame_logic.py:48-59 | A status of 200 and some day of some week with today's ISO date and a positive count; `HasContributedToday` is proved to answer exactly this. |
| `Dates.ParseIsoDate` | shame_logic.py:73 | A successful parse names a valid date, and the parsed text holds only digits, `-` and spaces. |
| `Dates.MonthField` | shame_logic.py:73 | The `%m` field of `strptime` accepts one or two digits and yields the month from 1 to 12 that those digits denote. |
| `Dates.DayField` | shame_logic.py:73 | The `%d` field of `strptime` yields a day from 1 to 31: the number its digits denote, or for the space-padded form ` 5` the digit after the space. |
| `Dates.ParseIsoFormat` | shame_logic.py:73 | `strptime("%Y-%m-%d")` applied to `isoformat()` of a valid date gives that date back. |
| `Dates.Ordinal` | shame_logic.py:74 | `date.toordinal()`, the day count behind `date - date`; specified by `OrdinalOrder`, `OrdinalStrictlyIncreasing` and `OrdinalWithinYear`. |
| `Dates.IsoFormat` | shame_logic.py:81 | `isoformat()` of a valid date is ten characters long. |
| `Dates.IsoOrder` | shame_logic.py:65-70 | ISO date strings sort under code-point order exactly as their ordinals do. |
| `Dates.SameYearIsoOrder` | shame_logic.py:65-70 | ISO strings of one year sort exactly as the month and day order the dates. |
| `Dates.OrdinalOrder` | shame_logic.py:74 | The ordinal behind `date - date` orders dates by year, then month, then day. |
| `Dates.OrdinalStrictlyIncreasing` | shame_logic.py:74 | A chronologically later date has a strictly larger ordinal. |
| `Dates.OrdinalWithinYear` | shame_logic.py:74 | A date's ordinal lies within the days of its year. |
| `Dates.YearStep` | shame_logic.py:74 | Consecutive years' first ordinals differ by the length of the earlier year. |
| `Dates.YearsApart` | shame_logic.py:74 | Every day of an earlier year comes before the first day of a later year. |
| `Dates.MonthsApart` | shame_logic.py:74 | Every day of an earlier month comes before the first day of a later month. |
| `Text.LexLe` | shame_logic.py:65 | `<=` on `str`, comparing code points left to right; specified by `LexLeReflexive`, `LexLeAntisymmetric`, `LexLeTransitive` and `LexLeTotal`. |
| `Text.LexLeReflexive` | shame_logic.py:65 | The string order `sorted` uses is reflexive. |
| `Text.LexLeAntisymmetric` | shame_logic.py:65 | The string order `sorted` uses is antisymmetric. |
| `Text.LexLeTransitive` | shame_logic.py:65 | The string order `sorted` uses is transitive. |
| `Text.LexLeTotal` | shame_logic.py:65 | The string order `sorted` uses is total. |
| `Text.LexLeCommonPrefix` | shame_logic.py:65 | A common prefix (such as `shame_`) does not decide the order. |
| `Text.LexLeSameLength` | shame_logic.py:65 | Differing strings of equal length decide the order before any common suffix (such as `.txt`). |
| `Text.PadOrder` | shame_logic.py:81 | Zero-padded fields of one width sort as the numbers they denote. |
| `Text.PadValue` | shame_logic.py:81 | A zero-padded field denotes the number it was written from. |
| `Text.Pad` | shame_logic.py:81 | A zero-padded field has exactly its width and holds only digits. |
| `Text.RemoveAll` | shame_logic.py:70 | `str.replace(pat, "")`, removing occurrences left to right; specified by `RemoveAllAbsent`, `RemoveAllLeading` and `RemoveAllTrailing`. |
| `Text.RemoveAllAbsent` | shame_logic.py:70 | `replace(pat, "")` leaves a string alone when the pattern's first character does not occur in it. |
| `Text.RemoveAllLeading` | shame_logic.py:70 | `replace(pat, "")` removes a leading occurrence and continues after it. |
| `Text.RemoveAllTrailing` | shame_logic.py:70 | `replace(pat, "")` removes a trailing occurrence that follows text in which the pattern cannot start. |
| `Text.NatToString` | shame_logic.py:94 | `str(n)` of a non-negative int; specified by `NatToStringValue`. |
| `Text.IntToString` | shame_logic.py:96 | `str(i)` of any int, with a leading `-` when negative; specified by `IntToStringRoundTrip`. |
| `Text.IntToStringRoundTrip` | shame_logic.py:94-96 | `str(i)` of any int reads back as `i`. |
| `Text.NatToStringValue` | shame_logic.py:94 | `str(n)` of a non-negative int is a non-empty string of digits that denotes `n`. |
| `ShameStats.MarkerName` | shame_logic.py:81-82 | The file name `shame_<isoformat>.txt` of a day's marker; specified by `MarkerNameKept`, `MarkerNameRoundTrip` and `MarkerOrder`. |
| `ShameStats.MarkerText` | shame_logic.py:84 | The sentence a marker file holds; `Repository.CreateShameFile` states that it is written under the marker name. |
| `ShameStats.IsShameName` | shame_logic.py:67 | The `startswith("shame_")` and `endswith(".txt")` test; specified by `KeepShameNames` and `MarkerNameKept`. |
| `ShameStats.ExtractDateText` | shame_logic.py:70 | The two `replace` calls that turn the last name into the date text; specified by `MarkerNameRoundTrip`. |
| `ShameStats.MarkerNameKept` | shame_logic.py:65-68 | The name `create_shame_file` writes passes the `shame_` / `.txt` filter. |
| `ShameStats.MarkerNameRoundTrip` | shame_logic.py:70-73 | Extracting from the name `create_shame_file` writes for a date gives that date's ISO text, which parses back to the date. |
| `ShameStats.MarkerOrder` | shame_logic.py:65-70 | Marker names sort exactly as their dates do. |
| `ShameStats.KeepShameNames` | shame_logic.py:65-68 | The filter keeps exactly the names that start with `shame_` and end with `.txt`. |
| `ShameStats.KeepShameNamesDistinct` | shame_logic.py:65-68 | Filtering a listing without repeats gives a sequence without repeats. |
| `ShameStats.KeepShameNamesAppend` | shame_logic.py:65-68 | Filtering a concatenation gives the two filtered parts, in order. |
| `ShameStats.KeepShameNamesNone` | shame_logic.py:65-68 | A listing without marker names filters to nothing. |
| `ShameStats.SortNames` | shame_logic.py:65 | `sorted` on the filtered names; specified by `SortNamesCorrect`. |
| `ShameStats.InsertElements` | shame_logic.py:65 | Inserting a name into a sequence adds exactly that name. |
| `ShameStats.HeadIsLeast` | shame_logic.py:65 | The head of a sorted sequence is at most every element. |
| `ShameStats.InsertSorted` | shame_logic.py:65 | Inserting into a sorted sequence keeps it sorted. |
| `ShameStats.SortNamesCorrect` | shame_logic.py:65 | `sorted` returns a sorted permutation of its input. |
| `ShameStats.Greatest` | shame_logic.py:70 | A non-empty set of names has a member that is at least every member. |
| `ShameStats.UpperBoundRaised` | shame_logic.py:70 | An upper bound of a set stays one when raised. |
| `ShameStats.DistinctCardinality` | shame_logic.py:69 | A listing without repeats has as many entries as distinct names. |
| `ShameStats.StatsFrom` | shame_logic.py:69-78 | The count, last shame and streak computed from the number of names and the greatest one; specified through `StatsOfListingIsLedgerStats` and `LatestMarkerStats`. |
| `ShameStats.StatsOfListing` | shame_logic.py:64-78 | `get_shame_stats` as written, on one directory listing; specified by `StatsOfListingIsLedgerStats`, `StatsIgnoreListingOrder` and `StatsIgnoreOtherNames`. |
| `ShameStats.StatsOfListingIsLedgerStats` | shame_logic.py:64-78 | For any listing order: `total` is the number of marker names, `last_shame` is `Never` exactly when none exist and is otherwise the greatest marker name with `shame_` and `.txt` removed, the streak is today's ordinal minus that date's ordinal or the Perfect Discipline sentinel, and an unparsable last name is a ValueError. |
| `ShameStats.StatsIgnoreListingOrder` | shame_logic.py:65-66 | Two listings of the same directory give the same statistics. |
| `ShameStats.StatsIgnoreOtherNames` | shame_logic.py:65-68 | Entries that are not marker names change no returned value. |
| `ShameStats.LatestMarkerStats` | shame_logic.py:69-76 | When every marker name was written by `create_shame_file`, the last shame is the chronologically latest marker date and the streak counts the days from it to today. |
| `Report.LastShameText` | shame_logic.py:70 | The text shown for the last shame, `Never` when there is none; specified by `StatsAreDisplayable` and `ReportRoundTrip`. |
| `Report.StreakText` | shame_logic.py:76 | The text shown for the streak, the Perfect Discipline sentinel or `str` of the days; specified by `StreakTextShape` and `ReportRoundTrip`. |
| `Report.Fill` | shame_logic.py:88-103 | The f-string template with its three fields; specified by `ReadFill`. |
| `Report.Render` | shame_logic.py:86-103 | The README text `update_readme` writes for given statistics; specified by `ReportRoundTrip`. |
| `Report.StarIndex` | shame_logic.py:94-96 | The position of the next bold delimiter lies within the text. |
| `Report.StarIndexAfter` | shame_logic.py:94-96 | In a field without `*`, the next delimiter is the one that follows the field. |
| `Report.ReadFieldOf` | shame_logic.py:94-96 | A field without `*` is read back intact, followed by its delimiter. |
| `Report.NoStarInDigits` | shame_logic.py:94 | Digits never contain the bold delimiter. |
| `Report.StreakTextShape` | shame_logic.py:76 | The streak text never contains `*`, and a number of days never prints as the Perfect Discipline sentinel. |
| `Report.ReadAfterLastOf` | shame_logic.py:96-103 | The streak field before the template's tail is read back. |
| `Report.ReadAfterTotalOf` | shame_logic.py:95-103 | The last-shame and streak fields are read back. |
| `Report.ReadAfterHeadOf` | shame_logic.py:94-103 | The total field, and everything after it, is read back. |
| `Report.ReadFill` | shame_logic.py:86-103 | The template filled with three `*`-free fields reads back as those fields. |
| `Report.ReportRoundTrip` | shame_logic.py:86-103 | The README `update_readme` writes holds exactly the total, last shame and streak it was given, and nothing else varies. |
| `Report.StatsAreDisplayable` | shame_logic.py:70-78 | A last shame that `get_shame_stats` returns never contains `*` and is never the text `Never`. |
| `WallOfShame.Repository.constructor` | shame_logic.py:8-9 | A repository starts from a given shame folder and README. |
| `WallOfShame.Repository.CreateShameFile` | shame_logic.py:80-84 | The folder becomes the old folder with today's marker name mapped to today's sentence, which overwrites a file of that name; the README is untouched. |
| `WallOfShame.Repository.ListShames` | shame_logic.py:66 | The listing holds every folder entry exactly once. |
| `WallOfShame.Repository.GetShameStats` | shame_logic.py:64-78 | The statistics are the reference statistics of the folder's set of names. |
| `WallOfShame.Repository.UpdateReadme` | shame_logic.py:86-103 | The README becomes the rendered template; the folder is untouched. |
| `WallOfShame.Repository.Run` | shame_logic.py:105-113 | The folder gains today's marker exactly when the check fails. The statistics are recomputed from the new folder. The README is rewritten from them, or left as it was when `strptime` fails. |
| `WallOfShame.LedgerAfterCheck` | shame_logic.py:105-110 | The folder after the contribution check of `main`; specified by `LedgerGrowsByAtMostOne`, `TotalAfterCheck` and `MarkersUpToPreserved`. |
| `WallOfShame.LedgerGrowsByAtMostOne` | shame_logic.py:105-110 | A run with a contribution leaves the folder unchanged. Otherwise it only adds or rewrites today's marker. The folder grows by one entry exactly when no marker for today existed. A second run on the same day changes nothing. |
| `WallOfShame.TotalAfterCheck` | shame_logic.py:105-112 | The total after a run is the old total, plus one exactly when a new marker was written. |
| `WallOfShame.MarkersUpToPreserved` | shame_logic.py:105-110 | Runs on non-decreasing dates keep every marker one the script wrote, dated no later than the run. |
| `WallOfShame.ShameDayStats` | shame_logic.py:105-112 | On a day without a contribution, the folder's markers are all written up to today, and the statistics show today as the last shame and a streak of 0. |
| `WallOfShame.ReadmeCarriesStats` | shame_logic.py:112-113 | The README a run writes reads back as exactly the statistics it computed. |
| `WallOfShame.IsoOfJanuaryThird` | shame_logic.py:81 | `isoformat()` of 2024-01-03 is `"2024-01-03"`. |
| `WallOfShame.TwoMarkersStats` | shame_logic.py:64-78 | A folder with exactly two markers reports two days, the later date, and the streak from it. |
| `WallOfShame.ContributionAfterTwoShames` | shame_logic.py:105-113 | With markers for 2024-01-01 and 2024-01-03 and a contribution on 2024-01-10, the folder is unchanged and the statistics are 2, `2024-01-03` and 7 days. |

## Left out

- The GraphQL request and JSON decoding (shame_logic.py:18-46, 53-54) are network I/O. The answer
  arrives as a `Response`: the status code and the decoded weeks. A body without the expected keys
  raises `KeyError` or `TypeError` in the source; that case is not modelled.
- Reading `GITHUB_USERNAME` and `GITHUB_TOKEN` and creating the `shames` folder at import time
  (shame_logic.py:5-13) are configuration I/O. The folder is assumed to exist.
- The clock (shame_logic.py:16, 74, 81) is not modelled. "Today" is a parameter: one valid UTC date
  for the whole run. A run that straddles midnight is not modelled.
- `print` output (shame_logic.py:41, 49-50, 58, 61, 107, 110) has no effect on the state and is left out.
- File contents are never read by the script; the map records what each marker holds. Filesystem
  errors and the atomicity of writes are operating-system matters and are not modelled.
- Dates.ParseIsoDate: recognises ASCII digits only. CPython's `\d` in the `%Y` and `%d` patterns also matches
  other Unicode decimal digits, and such names are reported here as unparsable.
- Text.LexLe: compares Dafny characters (Unicode scalar values). Python strings can also hold lone
  surrogate code points, which cannot occur in a Dafny string.
