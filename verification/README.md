# Polaris timetable engine in Dafny

A model of the timetable resolution engine of project-polaris, an API over a
GTFS feed of Spanish commuter trains. The engine takes free-text station
names, a date and a time and answers four questions:

- which stop a name means (`findStopCandidates`, first candidate wins);
- which services run on a date (`getActiveServiceIds`, calendar weekday flag plus date range);
- which direct trains go from one stop to another (`findTrips`, grouped, ordered by departure, at most 50);
- which of them leaves next (`findNextTrip`, strictly after the current Madrid time).

Around these sit two other pieces:

- the two request handlers that sequence the questions and pick the outcome (`getTimetable`, `getNextTrain`);
- the older inline copies of the same routes in `index.ts`.

The model also covers the loader that builds the store from the feed's CSV
files, and the small request helpers (client address, user agent, weekday name).

The store is an in-memory `Feed`: one sequence of rows per table. Every column
is text, because the loader declares every column `TEXT`. Every comparison the
queries make is therefore SQLite's BINARY text order, `TextOrder.StrLt`. The
queries themselves become functions:

| SQL | function |
|---|---|
| `WHERE` | `Ordering.Filter` |
| `ORDER BY` | `Ordering.SortBy` |
| `ORDER BY … LIMIT n` | `Ordering.TakeSmallest` |
| `LIMIT n` alone | `Ordering.Take` |
| `LIKE` | `SqlText.LikeMatch` |
| the four-way join | `GtfsService.Matches` |
| `GROUP BY` with `MIN` | `GtfsService.Group` |

Where SQL leaves the order open, the contracts promise only what SQL promises.
That covers ties under `ORDER BY` and `LIMIT` without `ORDER BY`.

The environment becomes explicit inputs:

- `DateParse` is what `new Date(text)` gives.
- `LocalToday` is the server clock.
- `MadridClock` is the `Intl` parts of the Madrid time and its weekday.
- The request is a header map.

Modules follow the source files:

| module | models |
|---|---|
| `GtfsService` | `services/gtfsService.ts` |
| `TimetableController` | `controllers/timetableController.ts` |
| `InlineApi` | the routes of `index.ts` |
| `LoadData` | `load-data.ts` |
| `RequestUtils` | `utils/requestUtils.ts` |
| `DateTimeUtils` | `utils/dateTimeUtils.ts` |

Helper modules:

- `TextOrder` and `Ordering`: text order and the SQL ordering operators.
- `JsStrings`: `trim`, `split`, `replace`, `toString`, `padStart`.
- `SqlText`: `LOWER` and `LIKE`.
- `Gtfs`: the tables.
- `Scenarios`: small concrete feeds.

Notes on how the model reads the code:

- **Stop candidates are in scan order.** Candidate lookups have no `ORDER BY`, so the model returns candidates in the order the table is scanned.
- **`stop_sequence` is compared as text.** The model does the same. "10" sorts before "9", so a trip running from its ninth stop to its tenth is not found, while the same trip is found running backwards. `Scenarios.TextSequenceHidesTrip` exhibits this.
- **The two copies of each route agree.** The inline routes of `index.ts` look a stop up with `LIMIT 1` where the controller takes the first of five candidates. `InlineApi.LookupOneIsFirstCandidate` proves these are the same row, and `InlineApi.InlineTimetableAgrees` and `InlineApi.InlineNextTrainAgrees` prove the two copies of each route answer identically.

## Model

| member | source | states |
|---|---|---|
| `GtfsService.MatchingStops` | api/src/services/gtfsService.ts:34 | exactly the stops whose lower-cased name matches `%q%` under LIKE |
| `GtfsService.FindStations` | api/src/services/gtfsService.ts:27-43 | no or empty query: all stops ordered by name; a query: at most 50 matching stops, ordered by name, none left out that sorts before one kept |
| `GtfsService.FindStationById` | api/src/services/gtfsService.ts:45-57 | not found exactly when no stop has the id; otherwise a stop with that id, the first such in scan order |
| `GtfsService.StopCandidates` | api/src/services/gtfsService.ts:59-62 | the first matches of the scan up to the limit, in scan order, each the id and name of its stop |
| `GtfsService.FindStopCandidates` | api/src/services/gtfsService.ts:59-62 | the first five matching stops in scan order (fewer when fewer match); empty exactly when no stop name matches |
| `GtfsService.FirstCandidateIndependentOfLimit` | api/src/services/gtfsService.ts:60 | the first candidate does not depend on the limit (so `LIMIT 1` and `LIMIT 5` agree on it) |
| `GtfsService.ActiveServiceIds` | api/src/services/gtfsService.ts:64-76 | an id is returned exactly when a calendar row with it has the weekday flag '1' and the date in its range; each once; empty exactly when no row runs |
| `GtfsService.Matches` | api/src/services/gtfsService.ts:95-102 | a join row is produced exactly when it passes the join conditions and the `WHERE` clause |
| `GtfsService.KeyIndex` | api/src/services/gtfsService.ts:103-108 | the position of the group with a key, past the end exactly when no group has it |
| `GtfsService.GroupStepNew` | api/src/services/gtfsService.ts:103-108 | a join row with a new key adds a group that is its own aggregate |
| `GtfsService.GroupStepMerge` | api/src/services/gtfsService.ts:90-92 | a join row with an existing key lowers that group's `MIN(trip_id)` and `MIN(service_id)` and keeps it the aggregate |
| `GtfsService.Group` | api/src/services/gtfsService.ts:86-108 | one row per distinct key, each the minimum trip and service id of its group, and every join row's key present |
| `GtfsService.GroupedTrips` | api/src/services/gtfsService.ts:86-108 | distinct keys, only rows the query can return, and every qualifying join row's group present |
| `GtfsService.SmallestFacts` | api/src/services/gtfsService.ts:109-110 | the first n groups by departure keep distinct keys and leave out no group departing earlier |
| `GtfsService.OrderedTrips` | api/src/services/gtfsService.ts:109-110 | at most the limit, ordered by departure, distinct keys, complete up to the limit, empty exactly when nothing qualifies |
| `GtfsService.FindTrips` | api/src/services/gtfsService.ts:78-117 | empty at once for no services; at most 50 rows ordered by departure; one row per group; complete; empty exactly when no trip qualifies |
| `GtfsService.FirstIsEarliest` | api/src/services/gtfsService.ts:152-153 | the single row of an ordered `LIMIT 1` departs no later than any qualifying join row |
| `GtfsService.FindNextTrip` | api/src/services/gtfsService.ts:119-160 | none exactly when no trip departs strictly after now; otherwise a row of the query, departing after now and no later than any qualifying trip |
| `GtfsService.ResultRowUnique` | api/src/services/gtfsService.ts:90-92 | two result rows with the same group key are the same row, since `MIN` determines the representative |
| `GtfsService.LaterKeepsGroup` | api/src/services/gtfsService.ts:148 | the time bound keeps or drops whole groups: a later group is a group of the day's query |
| `GtfsService.NextTrainIsTimetableRow` | api/src/services/gtfsService.ts:78-160 | when the timetable is not cut off at 50, the next train is one of its rows |
| `GtfsService.NoNextTrainMeansTimetableEnded` | api/src/services/gtfsService.ts:78-160 | with no next train, no timetable row departs after now |
| `GtfsService.NoServicesNoneQualify` | api/src/services/gtfsService.ts:79 | with an empty service list no trip qualifies, so the early return loses nothing |
| `DateTimeUtils.DayOfWeekName` | api/src/utils/dateTimeUtils.ts:3-6 | each of the seven weekday numbers gives its own name, 0 sunday through 6 saturday, and only that number gives it |
| `DateTimeUtils.DayOfWeekNameInjective` | api/src/utils/dateTimeUtils.ts:4-5 | different weekdays give different column names |
| `DateTimeUtils.DayOfWeekNameOnto` | api/src/utils/dateTimeUtils.ts:4-5 | every calendar column is the name of some weekday |
| `DateTimeUtils.WorkdayNames` | api/src/utils/dateTimeUtils.ts:4-5 | weekdays 1 to 5 are exactly monday to friday |
| `RequestUtils.FirstAddress` | api/src/utils/requestUtils.ts:21 | the first comma-separated entry, trimmed: no comma left in it |
| `RequestUtils.FirstPresent` | api/src/utils/requestUtils.ts:16-23 | none exactly when no header has a value; otherwise the address of the first that has one |
| `RequestUtils.GetClientIp` | api/src/utils/requestUtils.ts:3-30 | undefined exactly when none of the eight headers has a value; never a comma; `x-forwarded-for` wins when set |
| `RequestUtils.GetUserAgent` | api/src/utils/requestUtils.ts:32-34 | the `user-agent` header exactly when present |
| `RequestUtils.LaterHeaderNeedsEarlierEmpty` | api/src/utils/requestUtils.ts:5-23 | a later header's value is passed over only when an earlier header has a value |
| `RequestUtils.ForwardedChain` | api/src/utils/requestUtils.ts:19-21 | in `client, proxy…` the client entry is the address |
| `LoadData.TableName` | api/src/load-data.ts:119 | a file name with no `.txt` is its own table name; otherwise only the first `.txt` is removed |
| `LoadData.TableNameKeepsSecondTxt` | api/src/load-data.ts:119 | `a.txt.txt` names table `a.txt`: a second `.txt` stays |
| `LoadData.TableNameOfTxt` | api/src/load-data.ts:119 | a dot-free base name with `.txt` gives back the base name |
| `LoadData.GtfsTableNames` | api/src/load-data.ts:5-13 | the six feed files name the six tables the queries read |
| `LoadData.StripQuotes` | api/src/load-data.ts:48 | at most one leading and one trailing quote removed; unquoted text unchanged; a quoted value unwrapped; a quote at only one end removed from that end alone |
| `LoadData.CleanField` | api/src/load-data.ts:48 | no longer than the raw cell and only its characters; a plain cell unchanged |
| `LoadData.Fields` | api/src/load-data.ts:52 | one cleaned cell per comma-separated piece, none holding a comma |
| `LoadData.Lines` | api/src/load-data.ts:42 | no line holds a newline, and joining them gives the trimmed text back |
| `LoadData.QuotedRoundTrip` | api/src/load-data.ts:52 | quoting a value and reading the cell gives the value back |
| `LoadData.Assign` | api/src/load-data.ts:54-57 | the record's keys are the header names, each bound to the value of its last column |
| `LoadData.MakeRecord` | api/src/load-data.ts:54-57 | keys without repeats covering the header; with distinct names every column's value is kept |
| `LoadData.KeptLines` | api/src/load-data.ts:51-53 | exactly the data lines with as many cells as the header |
| `LoadData.ParseRows` | api/src/load-data.ts:51-62 | one record per line with as many cells as the header, in file order, each the header zipped with that line's cells; other lines give none |
| `LoadData.ParseCsv` | api/src/load-data.ts:35-65 | no records for a missing file or fewer than two lines; otherwise one record per data line whose cell count matches the header, in file order, keyed by the header names |
| `LoadData.ParseRender` | api/src/load-data.ts:35-65 | reading back a table written as CSV with plain cells gives one record per row, each the header zipped with the row |
| `LoadData.PrimaryKeyFor` | api/src/load-data.ts:76-81 | a primary key exactly for the five keyed tables that have their id column, and it is that table's id column |
| `LoadData.StopTimesUnkeyed` | api/src/load-data.ts:82 | `stop_times` never gets a primary key |
| `LoadData.CreateTable` | api/src/load-data.ts:71-89 | the table is recreated empty with the given columns and the table's id column as key when present; every other table is unchanged |
| `LoadData.Bind` | api/src/load-data.ts:105 | one value per header: the record's field or NULL when it has none |
| `LoadData.InsertRow` | api/src/load-data.ts:106-110 | a row repeating a key is skipped and any other appended; keys stay unique; the row or its key holder is stored |
| `LoadData.InsertRows` | api/src/load-data.ts:103-112 | existing rows kept in front; keys stay unique; every row stored or shadowed by its key; without a key all rows appended in order |
| `LoadData.InsertData` | api/src/load-data.ts:94-114 | no records leaves the table alone; every record's binding is stored unless an earlier row holds its key; every new row is some record's binding; without a key, all bindings appended in order |
| `LoadData.LoadFile` | api/src/load-data.ts:118-134 | nothing changes for a file without records; otherwise its table holds the first record's keys as columns, every record stored (all of them in order without a key), unique keys and no NULLs; other tables untouched |
| `LoadData.LoadFiles` | api/src/load-data.ts:118-135 | only the tables of the listed files are added; a table no file with records names is untouched; the last file naming a table, when it has records, leaves that table loaded with them |
| `LoadData.LoadFeed` | api/src/load-data.ts:27-140 | starting from the existing database: each feed file with records loads its table; a feed table whose file has none, and every other table, is left as it was |
| `TimetableController.DefaultDate` | api/src/controllers/timetableController.ts:54-58 | today's date with its hyphens removed is the year, two-digit month and two-digit day |
| `TimetableController.DashedCompacts` | api/src/controllers/timetableController.ts:113 | removing the hyphens of `Y-M-D` gives `YMD` |
| `TimetableController.Dashed` | api/src/controllers/timetableController.ts:261 | two more characters than the parts, and splitting at the hyphens gives year, month and day back |
| `TimetableController.Compact` | api/src/controllers/timetableController.ts:262 | exactly the parts' characters, with no hyphen when the parts have none |
| `TimetableController.ClockTime` | api/src/controllers/timetableController.ts:263 | splitting at the colons gives hour, minute and second back |
| `TimetableController.MadridDatesDifferByHyphens` | api/src/controllers/timetableController.ts:261-262 | the dashed and compact spellings of today's Madrid date differ only by the two hyphens |
| `TimetableController.ResolvedStop` | api/src/controllers/timetableController.ts:64-109 | none exactly when no stop name matches; otherwise a matching stop |
| `TimetableController.EffectiveDate` | api/src/controllers/timetableController.ts:32-60 | the given date when truthy, otherwise today's date |
| `TimetableController.WeekdayOf` | api/src/controllers/timetableController.ts:112 | the weekday of the given date, or today's |
| `TimetableController.TimetableForStops` | api/src/controllers/timetableController.ts:112-207 | no services exactly when no calendar row runs; no trips only when nothing qualifies; otherwise 1 to 50 ordered result rows |
| `TimetableController.GetTimetable` | api/src/controllers/timetableController.ts:16-234 | invalid date exactly for a truthy unparsable date; departure or arrival not found exactly when its name matches no stop, in that order |
| `TimetableController.NextForStops` | api/src/controllers/timetableController.ts:315-409 | no services exactly when no calendar row runs today; no further trains exactly when nothing departs after now; otherwise the next train |
| `TimetableController.GetNextTrain` | api/src/controllers/timetableController.ts:236-435 | never a date error; departure or arrival not found exactly when its name matches no stop |
| `TimetableController.NoServicesIgnoresTrips` | api/src/controllers/timetableController.ts:116-142 | a no-services answer depends only on the stops and the calendar |
| `TimetableController.HandlersAgreeBeforeTrips` | api/src/controllers/timetableController.ts:64-142 | asked for today's Madrid date, both handlers resolve the same stops and the same services |
| `TimetableController.NextTrainInTimetable` | api/src/controllers/timetableController.ts:149-409 | the next train is a row of that day's timetable unless the timetable is cut off at 50 |
| `InlineApi.ListStations` | api/src/index.ts:24-44 | all stops ordered by name, or the first 50 matching stops by name, none left out that sorts before one kept |
| `InlineApi.StationById` | api/src/index.ts:46-66 | not found exactly when no stop has the id; otherwise a stop with it |
| `InlineApi.LookupOne` | api/src/index.ts:256-262 | none exactly when no stop name matches |
| `InlineApi.LookupOneIsFirstCandidate` | api/src/index.ts:256-259 | the `LIMIT 1` row is the first of the five candidates |
| `InlineApi.InlineTimetable` | api/src/index.ts:68-205 | an invalid date exactly for a truthy unparsable date; departure not found exactly when its name matches no stop |
| `InlineApi.InlineTimetableForStops` | api/src/index.ts:114-205 | once both stops are found, the inline route answers as the rest of `getTimetable` does |
| `InlineApi.InlineTimetableAgrees` | api/src/index.ts:68-205 | the inline timetable route answers exactly as `getTimetable` does |
| `InlineApi.InlineNextTrain` | api/src/index.ts:207-348 | never a date error or a timetable; departure not found exactly when its name matches no stop |
| `InlineApi.InlineNextTrainAgrees` | api/src/index.ts:207-348 | the inline next-train route answers exactly as `getNextTrain` does |
| `InlineApi.InlineDayNamesAgree` | api/src/index.ts:19-22 | the inline weekday array names each weekday as the shared helper does |
| `SqlText.AsciiLower` | api/src/services/gtfsService.ts:34 | a capital letter moves to its small letter; any other character stays; no capital results |
| `SqlText.Lower` | api/src/services/gtfsService.ts:34 | same length; each character is its ASCII small letter, so no capital remains |
| `SqlText.LowerIsLower` | api/src/services/gtfsService.ts:34 | lowering twice changes nothing |
| `SqlText.LikeAnyRest` | api/src/services/gtfsService.ts:34-35 | `%` alone matches every text |
| `SqlText.LikeLiteralThenAny` | api/src/services/gtfsService.ts:34-35 | a literal followed by `%` matches exactly the texts that start with it up to ASCII case |
| `SqlText.LikeAnyThen` | api/src/services/gtfsService.ts:34-35 | a leading `%` matches exactly when the rest of the pattern matches some suffix |
| `SqlText.LikeIsSubstring` | api/src/services/gtfsService.ts:60-61 | for a query without wildcards, `LOWER(name) LIKE LOWER('%q%')` holds exactly when the lowered query occurs in the lowered name |
| `JsStrings.Trim` | api/src/utils/requestUtils.ts:21 | the text with white space removed at both ends only |
| `JsStrings.Split` | api/src/load-data.ts:42 | at least one piece and no piece holds the separator |
| `JsStrings.JoinSplit` | api/src/load-data.ts:42 | joining the pieces of a split gives the text back |
| `JsStrings.SplitJoin` | api/src/load-data.ts:52 | splitting joined separator-free pieces gives the pieces back |
| `JsStrings.RemoveAll` | api/src/controllers/timetableController.ts:113 | no hyphen left and every other character kept with its count |
| `JsStrings.ReplaceFirst` | api/src/load-data.ts:119 | a text without the pattern is unchanged; otherwise the first occurrence, and only it, is replaced |
| `Ordering.Filter` | api/src/services/gtfsService.ts:60 | exactly the rows meeting the condition, each with its count |
| `Ordering.FilterConcat` | api/src/services/gtfsService.ts:60 | filtering keeps scan order: the filter of two parts is the filter of each, in order |
| `Ordering.Take` | api/src/services/gtfsService.ts:60 | `LIMIT n` without `ORDER BY`: the first n rows, or all when fewer |
| `Ordering.SortBy` | api/src/services/gtfsService.ts:31 | a permutation in key order |
| `Ordering.TakeSmallest` | api/src/services/gtfsService.ts:34 | the first n rows by key: sorted, from the pool, no row left out sorting before one kept |
| `Ordering.Dedup` | api/src/services/gtfsService.ts:72-75 | the same values, each once |
| `TextOrder.StrLtTransitive` | api/src/services/gtfsService.ts:109 | text order is transitive, so ordering by departure text is a total order |
| `Scenarios.CalendarRange` | api/src/services/gtfsService.ts:64-76 | a Monday service for 2024 runs on 2024-07-01 and not on 2025-01-01 |
| `Scenarios.AtochaResolves` | api/src/services/gtfsService.ts:59-62 | "Atocha" resolves to "Madrid-Atocha Cercanías"; "ZZZQQQ" resolves to nothing |
| `Scenarios.NextTrainExclusive` | api/src/services/gtfsService.ts:148 | a train leaving at 10:00:00 is not next at 10:00:00 but is at 09:59:59 |
| `Scenarios.TextSequenceHidesTrip` | api/src/services/gtfsService.ts:101 | a trip from stop sequence 9 to 10 is not found, and the reverse direction is |

## Left out

- Database connections, their opening and closing, and the `try`/`catch` that turns a failing query into a 500 answer. The model's store never fails.
- PostHog analytics events, console logging and processing times. These do not influence any answer.
- Hono routing, HTTP status codes, JSON shaping and message texts. The handlers return an `Outcome` tag with the data the response carries.
- The clock, `new Date(text)`, `getDay()`, `Intl.DateTimeFormat` and `toLocaleString`. These are inputs (`LocalToday`, `DateParse`, `MadridClock`). Whether a date string parses, and which weekday the server's time zone gives it, is not modelled. That includes `new Date("YYYY-MM-DD")` reading the date as UTC midnight.
- The routes and station controllers, the departures and route-detail endpoints, the `get-timetables` download script, the configuration files and the "/" greeting route. None of them is part of the timetable engine.
- Opening the database file. `LoadData.LoadFeed` takes the database the loader opens as a parameter, and `LoadData.LoadFile` takes a file's text, or its absence, as one.
- Reading files from disk and executing SQL text. A file is its text, or absent. A table is a `Table` value. Prepare errors for unknown or duplicate column names are not modelled.
- LoadData.ParseCsv: `Object.keys` puts integer-like keys first. The model keeps the header's first-occurrence order.
- `GtfsService.FindTrips` and `GtfsService.FindNextTrip` take the feed as a parameter. They are not connected to the rows `LoadData.LoadFeed` stores, whose columns are strings that may be NULL.
- `SqlText.LikeMatch` folds case for ASCII letters only, as SQLite's built-in `LOWER` and `LIKE` do. Unicode case folding is out of scope.
- Stop latitude and longitude are kept as strings. No arithmetic is done on them.
