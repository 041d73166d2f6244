# Yakhroma cargo dashboard: header resolution, cleaning, statuses and voyages

`app.py` loads a sheet of cargo records (vessel, arrival date at the pier,
shipment date by truck, carrier, truck number, client, certificate, gross
tonnage), cleans it and draws a dashboard. This project models the record
logic inside that script and proves what it promises:

- **Header resolution** (module `Headers`, class `Frames.Frame`). Header names
  are normalised: lower-cased, 'ё' becomes 'е', Latin 'c' becomes Cyrillic
  'с', and the result is stripped. Each of the nine required names is then
  resolved to the first column, in header order, that equals it or contains it,
  and to itself when no column does. The column-mapping loops and the copy loop
  are methods of `Frame`, the in-place `df`, and each is proved equal to a
  specification function. Lemmas then state what those functions guarantee.
- **Field cleaning** (module `Cells`). `safe_str_convert` turns missing, empty
  and "nan" cells into "" and strips everything else. `parse_date` returns no
  date for the same blank cells and reads `dd.mm.yyyy` the way Python's
  `strptime` does.
- **Cargo status** (module `Status`). The three filters `shipped`, `on_pier`
  and `in_transit` are modelled as masks over records. Every record is in
  exactly one of them.
- **Voyage suffixes** (module `Voyages`). `analyze_circular_voyages` matches
  the pattern `^(.*?)\s*\((\d+)\)\s*$`. The model reads it as a scan from the
  right end of the string and proves the scan finds exactly the groups the
  pattern defines.
- **Vessels without circular voyages** (module `Vessels`). Arrival rows are
  grouped by base name. A base name is selected exactly when its rows share one
  arrival date and every one of them has voyage number 0.

Modules: `Common` (Option, first-occurrence search), `Strings` (Python's
whitespace, `strip`, decimal digits), `Headers`, `Frames`, `Cells`, `Status`,
`Voyages`, `Vessels`.

## Model

| member | source | states |
|---|---|---|
| Headers.NormalizeName | app.py:33-34 | a normalised header is lower-case, holds no 'ё' and no Latin 'c', and has no whitespace at either end |
| Headers.NormalizeNameIdempotent | app.py:33-34 | normalising a header twice gives what normalising it once gives |
| Headers.NormalizeAll | app.py:32-36 | the header keeps its length and each name is replaced by its normalised form |
| Headers.FirstMatch | app.py:44-48 | the inner loop stops at the first column that equals or contains the name; no column before it does; `|cols|` means there is none |
| Headers.Resolve | app.py:42-50 | a required name maps to the first matching column, or to itself when no column matches; a mapped column always equals or contains the name |
| Headers.ContainingColumnBeatsLaterExactMatch | app.py:44-48 | a column that only contains the name, placed before an exact match, wins over it |
| Headers.ContainingColumnExample | app.py:39-48 | with the header ["брутто тн", "тн"], the name "тн" maps to "брутто тн" |
| Headers.Put | app.py:46-50 | `d[k] = v` keeps keys distinct, gives `k` the value `v`, keeps the other entries in place and adds `k` at the end only if it is new |
| Headers.ResolveAll | app.py:41-50 | the finished mapping has one entry per distinct required name and no other key, each entry holding that name's resolved column |
| Frames.Frame.NormalizeColumnNames | app.py:32-36 | the frame's header becomes the normalised header; no cell changes |
| Frames.Frame.MapColumns | app.py:41-50 | the nested loops with the `matched` flag and `break` build exactly `ResolveAll(required, header)` |
| Frames.Frame.CopyMappedColumns | app.py:52-56 | the copy loop leaves the frame as the left fold of column assignments over the mapping's items, in order |
| Frames.Frame.StandardizeColumns | app.py:32-56 | after lines 32-56 every required name is a column; one whose source is absent from the normalised header holds only missing cells; one the normalised header already carries, and that resolves to itself, keeps its column |
| Frames.AllMissing | app.py:56 | `np.nan` broadcast gives a column of `rows` missing cells |
| Frames.AssignLookup | app.py:53-56 | after `df[name] = col`, `name` is a column holding `col`, and every other column keeps its name and cells |
| Frames.CopyAllNames | app.py:52-56 | the copy loop adds exactly the mapping's keys to the header and removes no column |
| Frames.CopyAllUntouched | app.py:52-56 | a column whose name is no key of the mapping leaves the copy loop unchanged |
| Frames.CopyAllEntry | app.py:52-56 | with distinct keys, each standard name ends up with the column its own pass of the loop assigned |
| Frames.HeaderResolution | app.py:39-56 | every required name becomes a column; a name with a missing source holds only missing cells; a name that is already a column and resolves to itself keeps its own column; a name mapped to a non-required column holds a copy of that column |
| Strings.Strip | app.py:34 | `strip()` returns a string no longer than its input, with no whitespace at either end |
| Strings.StripPadded | app.py:34 | stripping a stripped string with any whitespace around it gives that string back |
| Strings.StrippedFixed | app.py:34 | a string with no whitespace at either end strips to itself |
| Strings.StripIdempotent | app.py:34 | stripping twice equals stripping once |
| Strings.NatToStringRoundTrip | app.py:183 | `int(str(n)) == n` for every natural number |
| Cells.SafeStr | app.py:86-89 | the result is "" exactly for missing, empty, "nan" and all-whitespace cells; otherwise it is the stripped text; it is never "nan" and never has whitespace at either end |
| Cells.SafeStrIdempotent | app.py:86-89 | cleaning a cleaned value changes nothing |
| Cells.SafeStrPadded | app.py:86-89 | text that is not "nan", with any whitespace around it, is cleaned to the text itself |
| Cells.StrptimeDayMonthYear | app.py:63 | `strptime(t, '%d.%m.%Y')` succeeds only with a real calendar date between years 1 and 9999 |
| Cells.TwoDigitsDay | app.py:63 | a day 1-31 written with two digits is a `%d` field of that value |
| Cells.TwoDigitsMonth | app.py:63 | a month 1-12 written with two digits is a `%m` field of that value |
| Cells.StrptimeFormatted | app.py:63 | every valid date written as dd.mm.yyyy is read back by `strptime` as that date |
| Cells.ParseDate | app.py:59-68 | missing, empty and "nan" cells give no date; a cell whose stripped text `strptime` accepts gives exactly the date `strptime` reads, which is valid; any other cell gives what the fallback parser returns for the unstripped text |
| Cells.ParseDateFormatted | app.py:59-63 | a cell holding dd.mm.yyyy of a valid date, with any whitespace around it, parses to that date whatever the fallback parser does |
| Status.ExactlyOneStatus | app.py:106-108 | each record satisfies exactly one of the three masks: shipped when it has a shipment date, whatever its arrival date; on the pier with only an arrival date; in transit with neither |
| Status.Select | app.py:106-108 | a filtered table holds exactly the records of its status and is no longer than the sheet |
| Status.SelectOne | app.py:106-108 | a filter keeps a single record exactly when the record has that status |
| Status.SelectAppend | app.py:106-108 | filtering a sheet is filtering its parts and concatenating the results, so the kept records keep their order and their count |
| Status.StatusesPartition | app.py:106-108 | the three filtered tables together hold every record exactly as often as the sheet does |
| Status.StatusesDisjoint | app.py:106-108 | no record is in two of the filtered tables |
| Status.CleanRecordStatus | app.py:59-71 | blank date cells mean in transit; a blank shipment cell and an arrival cell in dd.mm.yyyy mean on the pier; a shipment cell in dd.mm.yyyy means shipped |
| Voyages.MatchVoyageSuffix | app.py:179-180 | a match yields groups that have the shape the pattern describes: base text, whitespace, "(", digits, ")", whitespace |
| Voyages.MatchVoyageSuffixComplete | app.py:179-180 | whenever a string has the pattern's shape, the scan matches it with exactly those two groups |
| Voyages.AnalyzeCircularVoyages | app.py:175-186 | missing or empty input comes back unchanged with voyage 0; any other text gives a text base name without whitespace at either end, and a voyage number that is never negative |
| Voyages.SpaceRun | app.py:179-180 | the scan for `\s*` finds exactly a maximal run of whitespace |
| Voyages.DigitRun | app.py:179-180 | the scan for `\d+` finds exactly a maximal run of digits |
| Voyages.AnalyzeSplit | app.py:178-184 | a name of the pattern's shape gives its stripped first group and the value of its digits |
| Voyages.AnalyzeUnsuffixed | app.py:185-186 | a name without a trailing "(digits)" gives the stripped name and voyage 0 |
| Voyages.VoyageRoundTrip | app.py:175-186 | `analyze(b + " (" + str(n) + ")") == (b, n)` for every stripped base `b` without a line break and every `n >= 0` |
| Vessels.ArrivalVisits | app.py:188-190 | the `arrival_data` rows are exactly the records with an arrival date, each with its base name and voyage number |
| Vessels.VisitStatsKeys | app.py:191-196 | a base name has a group exactly when some arrival row carries it |
| Vessels.VisitStatsArrivals | app.py:191-192 | a group's set of dates, counted by `nunique`, holds exactly the arrival dates of its rows |
| Vessels.VisitStatsMax | app.py:193 | a group's maximum voyage number bounds every row's voyage number and is attained by one of them |
| Vessels.WithoutCircularExactly | app.py:198-201 | a base name is selected exactly when it has a group, all the group's rows share one arrival date, and all have voyage number 0 |
| Vessels.VesselsWithoutCircularExactly | app.py:188-201 | the same, for the rows of the sheet |
| Vessels.RepeatVisitorsNotSelected | app.py:198-201 | a base name that arrived under a numbered voyage, or on two different dates, is not selected |

## Left out

- Loading the CSV from Google Sheets and its error path: network I/O.
- The Streamlit page, its cache and the plotly figures: presentation.
- `safe_convert_to_float` and every tonnage sum, mean and ratio: floating-point arithmetic. Cells are modelled as text or missing, so numeric cells and `str()` of non-string values are not modelled.
- The "today" filter depends on the wall clock.
- ParseDate: `pd.to_datetime` is the uninterpreted parameter `fallback`. The model states when it is called and with what text, but not what it returns.
- Cells.ParseDate: dates carry no time of day. A `pd.to_datetime` fallback that yields a time would make `nunique` count it apart; the model does not see that.
- Headers.NormalizeName: `str.lower()` is modelled for Latin A-Z and the Cyrillic capitals U+0400-U+042F only, the scripts of this sheet's headers. Other Unicode case mappings are not modelled.
- Strings.IsSpace is Python's whitespace set. `\d` in the voyage pattern and in `strptime` is read as ASCII 0-9 only; Python also accepts other Unicode decimal digits.
- Frames.Lookup: a header holding the same name twice is read and written through its first column. pandas would return or assign several columns there.
- Vessels.VesselsWithoutCircular: the selection is a set of base names. The order and the other aggregated columns (`брутто` sum, first original name) of `vessel_visit_stats` are not modelled, nor are pandas' `groupby`, `to_period` and `merge` mechanics.
- Voyages.VoyageRoundTrip holds for base names without a line break: the pattern's `.` does not match '\n', so such names have no match. The scan models this.
