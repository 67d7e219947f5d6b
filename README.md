# yarn-publish-date, modelled in Dafny

`yarn-publish-date.py` lists a project's dependencies with `yarn list`. It
looks up when each installed version was published on the npm registry, then
prints the packages from the oldest publish date to the newest. This project
models the part of the script between the listing and the printed lines:

- **Timestamps** (`timestamps.dfy`): a timezone-aware `datetime` has its local
  calendar fields and a UTC offset in seconds.
  - Two timestamps compare by the instant they denote, in microseconds on the
    UTC time line, computed with the proleptic Gregorian day numbering that
    CPython uses.
  - The report prints the local fields as `Y/MM/DD HH:MM:SS`.
  - `ReadDate` reads a printed date back; it is the inverse of `FormatDate`.
- **Packages** (`packages.dfy`): the `Pkg` dataclass is a Dafny class.
  - Its `publishDate` is updated in place; its name and version never change.
  - `PkgRecord` is the value of a `Pkg` at one moment.
- **Parser** (`parser.dfy`): `is_valid_pkg_prefix` and the parse loop.
  - `ParseLine` is the pure specification of one line; `ParseAll` covers the
    whole listing.
  - `ParsePackages` is the nested loop itself. It creates fresh `Pkg` objects
    and is proved to produce exactly `ParseAll`'s records, or its error.
  - `SplitLines` is `str.split('\n')`, with `JoinLines` as its inverse.
- **RegistryClient** (`registry.dfy`): the enrichment loop.
  - Each package's registry answer is given as a `Registry` map from names to
    `time` maps.
  - A name absent from the map is a fetch that raises.
  - `Enrich` looks each object up in turn and sets its date in place when the
    version is found, stopping at the first failing fetch. It is proved against
    the pure `EnrichAll`, `FirstUnavailable` and `Diagnostics`.
  - The registry's timestamps are `ValidTimestamp`s, within the ranges a
    `datetime` enforces, so every printed date reads back as its timestamp's
    local fields (`Pipeline.PrintedDatesReadBack`).
- **Reporter** (`reporter.dfy`): `sorted` by publish date is an insertion
  sort by instant.
  - It is proved to be a permutation, ordered and stable.
  - The report is also proved to equal the rendering of any stable, date-ordered
    arrangement.
  - It fails when any date is missing, because the comparison or `strftime`
    raises; in that case nothing is printed.
- **Pipeline** (`pipeline.dfy`): a whole run.
  - `Outcome` holds the printed lines, the diagnostics written to the error
    stream, and the exception that ended the run, if any.
  - `Run` composes the imperative stages. It is proved equal to `RunLines`,
    the pure composition of the specifications.

In three places the code does something other than what its names and comments suggest; the model follows the code:

- A name or a version may come out empty. `@foo` gives the name `""` and the
  version `foo`, and `foo@` gives the version `""`. The only thing the parser
  checks is that an `@` exists (`Parser.ParseEmptyName`).
- A record whose version is missing from the registry is not left out of the
  report. Sorting with a `None` key raises `TypeError`. With a single package
  `strftime(None)` raises instead. Either way the run fails after the
  diagnostics and prints nothing (`Pipeline.MissingVersionListing`).
- A line whose entry has no `@` is not skipped: `rindex` raises `ValueError`
  and the run stops (`Parser.ParseAllFirstError`).

## Model

| member | source | states |
|---|---|---|
| Packages.Pkg.constructor | yarn-publish-date.py:25-29 | a new package has the given name and version and no publish date |
| Packages.Records | yarn-publish-date.py:32 | the values of a list of packages, one per package, in order |
| Packages.DistinctSnoc | yarn-publish-date.py:44 | appending an object not yet in the list keeps the list free of aliases |
| Packages.RecordsAre | yarn-publish-date.py:32 | a list of values that agrees with every package is the list's value |
| Parser.SplitLines | yarn-publish-date.py:23 | `split('\n')`: the text cut at every newline, always at least one piece, with an empty piece after a trailing newline |
| Parser.SplitLinesJoin | yarn-publish-date.py:23 | the split pieces contain no newline and joined with newlines give the text back |
| Parser.JoinLinesSplit | yarn-publish-date.py:23 | splitting lines with no newline after joining them gives the same lines |
| Parser.IsAlnum | yarn-publish-date.py:14 | `str.isalnum` over ASCII: a letter or a digit |
| Parser.IsValidPkgPrefix | yarn-publish-date.py:13-14 | a character may begin a package name when it is `@` or alphanumeric |
| Parser.FirstValid | yarn-publish-date.py:13-36 | the position found may begin a name and no earlier one may; none is found only when no character may |
| Parser.LastAt | yarn-publish-date.py:40 | the position found holds `@` with no `@` after it; none is found exactly when there is no `@` |
| Parser.FirstValidAt | yarn-publish-date.py:34-36 | the scan stops at the first character that may begin a name |
| Parser.LastAtIs | yarn-publish-date.py:40 | `rindex('@')` is the rightmost `@` |
| Parser.ParseLine | yarn-publish-date.py:33-45 | a line fails only with the missing-separator error for that line; an emitted record has no publish date |
| Parser.ParseLineBlank | yarn-publish-date.py:33-36 | a line yields no record and no error exactly when none of its characters may begin a name |
| Parser.ParseLineEntry | yarn-publish-date.py:36-42 | from the first valid position the line fails exactly when the rest has no `@`; otherwise name + `@` + version is that rest and the version has no `@` |
| Parser.ParseAll | yarn-publish-date.py:32-45 | a parsed listing has at most one record per line, none of them dated |
| Parser.ParseAllAppend | yarn-publish-date.py:33 | parsing two parts of a listing combines their records in order, or gives the first part's error |
| Parser.ParseAllStep | yarn-publish-date.py:33-45 | one more line adds its record at the end, or adds nothing when it has no entry |
| Parser.ParseAllBlankLine | yarn-publish-date.py:33-36 | a line without an entry, such as the one after the last newline, adds nothing |
| Parser.ParseAllStopsAt | yarn-publish-date.py:40 | the first failing line ends the parse with its error, whatever follows |
| Parser.ParseAllKeepsError | yarn-publish-date.py:40 | once a prefix of the listing fails, the whole listing fails the same way |
| Parser.ParseAllOneLine | yarn-publish-date.py:33-45 | a one-line listing yields that line's record, nothing, or its error |
| Parser.ParseAllOkIff | yarn-publish-date.py:33-45 | the listing parses exactly when every line parses |
| Parser.ParseAllFirstError | yarn-publish-date.py:40 | the parse fails with the error of the first line whose entry has no `@` |
| Parser.ParseLineSplitsAt | yarn-publish-date.py:38-42 | the name is the text from the first valid position up to the rightmost `@`, the version is what follows it |
| Parser.ParseScopedLine | yarn-publish-date.py:34-42 | `├─ @scope/name@1.2.3` gives name `@scope/name` and version `1.2.3` |
| Parser.ParsePlainLine | yarn-publish-date.py:34-42 | `└─ lodash@4.17.21` gives name `lodash` and version `4.17.21` |
| Parser.ParseEmptyName | yarn-publish-date.py:40-42 | `@foo` gives an empty name and version `foo` |
| Parser.FindStart | yarn-publish-date.py:34-36 | the `enumerate` scan returns the first position that may begin a name, or none |
| Parser.ParseEntry | yarn-publish-date.py:34-45 | one line gives a fresh `Pkg` holding that line's record, no package, or the line's error |
| Parser.ParsePackages | yarn-publish-date.py:32-45 | the loop fails exactly when the listing does, with the same error; otherwise its fresh, distinct packages hold the listing's records in line order |
| RegistryClient.Resolve | yarn-publish-date.py:52-61 | one record after its lookup: dated with the version's timestamp when the version is a key of its package's `time` map, unchanged otherwise |
| RegistryClient.Diagnostics | yarn-publish-date.py:53-58 | the error-stream writes, in order: one per record whose version is missing, naming the package, the version and the `time` map |
| RegistryClient.EnrichAll | yarn-publish-date.py:48-61 | enrichment keeps the number of records and resolves each record independently |
| RegistryClient.FirstUnavailable | yarn-publish-date.py:48-50 | every package before the position answers the fetch, and the package at it does not |
| RegistryClient.FirstUnavailableIs | yarn-publish-date.py:48-50 | a position with all fetches before it answered and the one at it failing is the first failing fetch |
| RegistryClient.EnrichAllDatesExactlyFound | yarn-publish-date.py:52-61 | a record gets a date exactly when its version is a key of its package's `time` map, and it gets that key's timestamp; name and version are unchanged |
| RegistryClient.EnrichAllDatesValid | yarn-publish-date.py:59-61 | the dates enrichment attaches come from the registry, so they are valid |
| RegistryClient.DiagnosticsAppend | yarn-publish-date.py:53-58 | the diagnostics of two parts of the list are those of the first part followed by those of the second |
| RegistryClient.DiagnosticsExactlyNotFound | yarn-publish-date.py:52-58 | a diagnostic is written exactly for the records whose version is missing, naming the package, the version and the available times |
| RegistryClient.DiagnosticsStep | yarn-publish-date.py:53-58 | looking up one more package adds its diagnostic, if any, at the end |
| RegistryClient.Enrich | yarn-publish-date.py:48-61 | the loop sets the dates in place up to the first failing fetch, leaves later packages as they were, writes the diagnostics of the packages it looked up and reports that fetch's failure |
| RegistryClient.LookUp | yarn-publish-date.py:52-61 | one lookup sets the date when the version is a key and otherwise returns the diagnostic and leaves the date alone |
| RegistryClient.RecordsAfter | yarn-publish-date.py:48-61 | after looking up the first `i` packages, the list holds the enriched start followed by the untouched rest |
| Reporter.Key | yarn-publish-date.py:64 | the sort key: the instant of the record's publish date, the value aware datetimes compare by |
| Reporter.Insert | yarn-publish-date.py:64 | inserting adds exactly that record to the multiset of records |
| Reporter.SortByDate | yarn-publish-date.py:64 | the sorted list is a permutation of the records |
| Reporter.InsertAbove | yarn-publish-date.py:64 | inserting keeps a lower bound on the instants |
| Reporter.InsertSorted | yarn-publish-date.py:64 | inserting into a date-ordered list keeps it date-ordered |
| Reporter.SortByDateSorted | yarn-publish-date.py:64 | the sorted list is in non-decreasing order of instant |
| Reporter.InsertWithInstant | yarn-publish-date.py:64 | among records of one instant, the inserted record comes first |
| Reporter.SortByDateStable | yarn-publish-date.py:64 | records with equal instants keep their original relative order |
| Reporter.WithInstantNonEmpty | yarn-publish-date.py:64 | some record has a given instant exactly when the records of that instant are not empty |
| Reporter.StableSortUnique | yarn-publish-date.py:64 | two date-ordered lists with the same records in the same order at every instant are equal |
| Reporter.SameHead | yarn-publish-date.py:64 | two such lists start with the same record |
| Reporter.SameTailFilter | yarn-publish-date.py:64 | removing a common first record keeps the records at every instant equal |
| Reporter.SortByDateDatesValid | yarn-publish-date.py:64 | sorting keeps every record's date valid |
| Reporter.FormatLine | yarn-publish-date.py:65-67 | the f-string `<name>: <date>`, the date in `%Y/%m/%d %H:%M:%S` |
| Reporter.Lines | yarn-publish-date.py:64-67 | one printed line per record, in order, each `<name>: <date>` |
| Reporter.Report | yarn-publish-date.py:64-67 | the report fails exactly when some record has no date, and otherwise prints one line per record |
| Reporter.ReportIsStableSort | yarn-publish-date.py:64-67 | the report of dated records renders the stable sort by instant, whichever date-ordered arrangement describes it |
| Reporter.PrintReport | yarn-publish-date.py:64-67 | sorting then printing gives the report, or its failure |
| Reporter.PrintLines | yarn-publish-date.py:65-67 | the printing loop writes the lines of the sorted records in order |
| Reporter.LinesAre | yarn-publish-date.py:65-67 | lines that agree with every record's line are the rendering |
| Reporter.SortTwo | yarn-publish-date.py:64 | two records listed later-first are swapped |
| Reporter.SortTwoInOrder | yarn-publish-date.py:64 | two records listed earlier-first or at the same instant keep their order |
| Reporter.EarlierPrintedFirst | yarn-publish-date.py:64-67 | of a 2021 and a 2020 record, the 2020 one is printed first |
| Timestamps.Instant | yarn-publish-date.py:60-64 | the instant a timestamp denotes: its day number and time of day, less its UTC offset, in microseconds |
| Timestamps.FormatDate | yarn-publish-date.py:65 | `strftime('%Y/%m/%d %H:%M:%S')` of the local fields, the year unpadded and the other fields padded to two digits |
| Timestamps.DaysBeforeMonthGrows | yarn-publish-date.py:64 | each month adds at least 28 days to the day count |
| Timestamps.DaysBeforeMonthYearEnd | yarn-publish-date.py:64 | a year has 366 days when it is a leap year and 365 otherwise |
| Timestamps.DaysBeforeNextYear | yarn-publish-date.py:64 | the next year starts one year's length of days later |
| Timestamps.OrdinalOfLaterYear | yarn-publish-date.py:64 | every date of a later year has a larger day number |
| Timestamps.DateOrder | yarn-publish-date.py:64 | an earlier calendar date has a smaller day number |
| Timestamps.TimeOfDayInjective | yarn-publish-date.py:64 | different clock readings within a day are different times |
| Timestamps.InstantByDayThenTime | yarn-publish-date.py:64 | at one offset, instants order by day and then by time of day |
| Timestamps.InstantOrdersByLocalFields | yarn-publish-date.py:60-64 | at one offset, instant order is the order of the local fields, and equal instants mean equal timestamps |
| Timestamps.DecimalRoundTrip | yarn-publish-date.py:65 | `%Y` prints digits that read back as the year |
| Timestamps.TwoDigitsRoundTrip | yarn-publish-date.py:65 | a two-digit field prints two digits that read back as the field |
| Timestamps.FormatTailLayout | yarn-publish-date.py:65 | after the year come the separators and the zero-padded fields at fixed places |
| Timestamps.FormatDateRoundTrip | yarn-publish-date.py:65 | reading a printed date gives back the date and time of day it shows |
| Pipeline.RunLines | yarn-publish-date.py:32-67 | a run that fails prints nothing, and a parse failure ends it before any diagnostic |
| Pipeline.RunRecords | yarn-publish-date.py:48-67 | a run past parsing that fails prints nothing |
| Pipeline.RunSucceedsIff | yarn-publish-date.py:32-67 | a run succeeds exactly when every line parses and every version is found |
| Pipeline.SuccessPrintsEveryPackage | yarn-publish-date.py:48-67 | a successful run prints every package, date-ordered, and writes no diagnostic |
| Pipeline.PrintedDatesReadBack | yarn-publish-date.py:59-67 | every line of a successful run is a package name, `: ` and a date that reads back as that package's local date and time |
| Pipeline.FetchAbortNamesFirstUnavailable | yarn-publish-date.py:48-58 | a failing fetch stops the run, naming that package, after the diagnostics of the packages before it |
| Pipeline.ParseFooLine | yarn-publish-date.py:34-42 | `foo@1.0.0` gives name `foo` and version `1.0.0` |
| Pipeline.ParseBarLine | yarn-publish-date.py:38-42 | `@bar/baz@2.0.0` gives name `@bar/baz` and version `2.0.0` |
| Pipeline.ScenarioParses | yarn-publish-date.py:32-45 | the listing `""`, `foo@1.0.0`, `@bar/baz@2.0.0` gives two records in line order |
| Pipeline.ParseAllThree | yarn-publish-date.py:32-45 | a blank line and two entries give the two records in order |
| Pipeline.EveryPackageFound | yarn-publish-date.py:48-67 | when every package is found, the run prints the date-sorted report and writes no diagnostic |
| Pipeline.ScenarioEnriched | yarn-publish-date.py:52-61 | both packages of the scenario get their timestamps |
| Pipeline.TwoFound | yarn-publish-date.py:48-67 | two found packages are printed earliest first, in listing order when their instants are equal |
| Pipeline.ScenarioRun | yarn-publish-date.py:32-67 | the scenario listing prints its two lines in ascending publish order and writes no diagnostic |
| Pipeline.MissingVersionListing | yarn-publish-date.py:52-65 | a missing version writes its diagnostic, then the report fails and nothing is printed |
| Pipeline.MissingVersionRun | yarn-publish-date.py:52-65 | for that listing no fetch fails, the one diagnostic names the package, and the report fails |
| Pipeline.Run | yarn-publish-date.py:20-67 | the imperative run over the listing text has the outcome of the pure run over its lines |
| Pipeline.EnrichAndReport | yarn-publish-date.py:48-67 | enrichment in place followed by the report has the outcome of the pure run over the parsed records |

## Left out

- The `yarn list` subprocess and the UTF-8 decoding of its output (lines 20-22) are external I/O. `Pipeline.Run` takes the decoded text as input; only the `split('\n')` is modelled.
- The HTTP request and the JSON decoding (lines 49-50) are network and library calls. They are replaced by a `Registry` map from package name to its `time` map. A name absent from the map stands for a fetch that raises, from any cause: unreachable host, error status, malformed body or a missing `time` key.
- `datetime.strptime` (line 60) is a library call. Registry times come already parsed, as `ValidTimestamp` values. A timestamp string that fails to parse is not modelled.
- Timestamps: offsets are whole seconds. Sub-second offsets, which `%z` accepts, are not modelled.
- `strftime` (line 65): only the `%Y/%m/%d %H:%M:%S` pattern is modelled. `%Y` prints the year without padding, as glibc does for years below 1000.
- `str.isalnum` (line 14) is modelled over ASCII letters and digits. Unicode letters and digits outside ASCII are not treated as valid starts.
- The diagnostic's text (lines 54-58) is not rendered. A diagnostic is the package name, the version and the `time` map it names.
- The traceback and exit status of a failed run are not modelled. `Outcome.failure` only says which exception ended the run.
- RegistryClient.Enrich: requires the packages to be distinct objects, which `ParsePackages` guarantees. A list where one object appears twice, which the script never builds, is not modelled.
- Pipeline.Run: diagnostics are collected and returned with the outcome, not interleaved with the standard output. The script writes them before any report line, so their order relative to stdout is not captured.
