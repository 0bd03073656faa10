# isodate: a Dafny model

`isodate` is a small command-line tool. It prints a reference instant, either now or an
epoch second given as the first argument, as a UTC timestamp, a local timestamp, an
epoch second or an ISO week label. With `-r` it reads lines and replaces one
delimited field of each line, an epoch second, with its timestamp.

This project models the tool's core in five modules:

- `Text` (text.dfy): Go's `strings.Index`, `strings.Split` with a non-empty separator and
  `strings.Join`, with the laws that tie them together. Split then join restores the
  text. Join then split restores the pieces, for a one-character separator that no piece
  contains. Replacing one piece changes that piece of the text and nothing else.
- `Decimal` (decimal.dfy): what `strconv.ParseInt(s, 10, 64)` accepts, as an `Option<int>`.
  Also the `%d` rendering and the zero padding of `%02d` and of the layout fields.
- `UtcTime` (utc.dfy): `time.Unix(ts, 0).UTC().Format("2006-01-02T15:04:05Z")`. It
  converts an epoch second to a proleptic Gregorian date and time of day, and writes
  that in the layout. The conversion is proved to be a bijection between epoch seconds
  and valid dates and times. For years 0000 to 9999 a reader of the layout gives back the
  epoch second.
- `Oneline` (oneline.dfy): the reference epoch taken from the first argument, and the
  priority switch of `showOneline` over the selector flags `-u`, `-l`, `-s` and `-w`.
- `Replace` (replace.dfy): the replace loop `replaceEpoch`.
  - The cache-free specification `Expected` says what a line must become: written out
    with its field replaced, or reported as having too few fields or as not an epoch.
  - The class `Replacer` holds the loop's single-entry cache `cacheEpoch` / `cacheTS`.
    Its method `ProcessLine` is one pass of the loop body as written.
  - The driver `ReplaceEpoch` runs the loop over lines already read. It produces the
    lines written out and the diagnostics, each a line number and an error.
  - `ProcessLineGuarded` and `ReplaceEpochGuarded` are the corrected loop, which equals
    the specification line by line (see Findings).

Reading input, the clock, flags, printing and the host's time zone database are not
modelled. They become parameters: the lines, the `Config` of `-d`, `-f` and the
timestamp rendering, the `Selectors` and the `Instant`.

The week field is printed as `W` and a two-digit week number (`W%02d`). The selectors
are `-u`, `-l`, `-s` and `-w`. An empty target field before the first epoch is read
counts as a cache hit (see Findings).

## Model

| member | source | states |
|---|---|---|
| Decimal.ParseInt64 | isodate.go:78-82 | The text is read only if it is non-empty, is a sign or a digit followed by digits only, and has a value within the signed 64-bit range. |
| Decimal.ParseSigned | isodate.go:78 | An optional `+` or `-` followed by one or more digits is read as the signed value of the digits, when that value fits in 64 bits. |
| Decimal.ParseNoDigit | isodate.go:78-82 | Text that starts with neither a sign nor a digit is an error. |
| Decimal.NatText | isodate.go:35 | The `%d` digits of a number are one or more decimal digits. |
| Decimal.ValueOfNatText | isodate.go:35 | The `%d` digits of a number read back as that number. |
| Decimal.NatTextLeading | isodate.go:35 | The `%d` digits have no leading zero: the first digit is `0` only for zero. |
| Decimal.ParseIntText | isodate.go:107-112 | For every signed 64-bit number, parsing its `%d` text gives the number back. |
| Decimal.IntText | isodate.go:35 | The `%d` text of a number starts with `-` exactly when the number is negative, and the rest is digits without a leading zero (except for zero itself) whose value is the number's magnitude. |
| Decimal.PaddedValue | isodate.go:37 | Zero padding to any width keeps the value of the number. |
| Decimal.PaddedExact | isodate.go:31 | A number below 10^w, zero-padded to width w, is exactly w digits that read back as the number. |
| Text.Index | isodate.go:71 | The position found is an occurrence of the separator with none before it; no position means no occurrence. |
| Text.Split | isodate.go:71 | Splitting gives at least one piece, and no piece contains the separator. |
| Text.SplitLeftmost | isodate.go:71 | The split is the leftmost one: a single piece exactly when the separator does not occur, and otherwise the first piece ends at the first occurrence. |
| Text.JoinSplit | isodate.go:71-93 | Joining the pieces of a split with the same separator gives the line back. |
| Text.SplitJoin | isodate.go:71-93 | With a one-character separator that no piece contains, splitting the joined pieces gives the pieces back. |
| Text.JoinAround | isodate.go:93 | A joined text is the pieces before piece k, piece k, and the pieces after it. |
| Text.JoinReplace | isodate.go:91-93 | Replacing piece k before joining leaves the text before and after it unchanged. |
| Text.SplitReplaceJoin | isodate.go:71-93 | Splitting a line, replacing piece k and joining again changes the line in that piece only. |
| UtcTime.DaysInMonth | isodate.go:88 | Every month has 28 to 31 days. |
| UtcTime.MarchMonthOf | isodate.go:88 | A day of a March-based year falls in exactly one month: at or after that month's first day and before the next month's. |
| UtcTime.YearOfEra | isodate.go:88 | A day of a 400-year cycle is split into a year of the cycle and a day within that year's length, and the two add back up to the day. |
| UtcTime.YearOfEraOfYearStart | isodate.go:88 | The split of a day of a 400-year cycle is unique: a year and a day of that year are recovered from their sum. |
| UtcTime.DateOfDays | isodate.go:88 | The date of any day count has a month from 1 to 12 and a day that exists in that month and year. |
| UtcTime.DaysOfDateOfDays | isodate.go:88 | Counting the days to the date of day z gives z back. |
| UtcTime.DateOfDaysOfDate | isodate.go:88 | Every valid date is the date of its own day count. |
| UtcTime.DateTimeOf | isodate.go:88 | Every epoch second has a valid UTC date and time: month 1 to 12, a day of that month, hour below 24, minute and second below 60. |
| UtcTime.EpochOfDateTimeOf | isodate.go:88 | The date and time of an epoch second lie exactly that many seconds after 1970-01-01T00:00:00Z. |
| UtcTime.DateTimeOfEpochOf | isodate.go:88 | Every valid date and time is what the conversion gives for its epoch second, so the conversion is a bijection. |
| UtcTime.LayoutSlices | isodate.go:31 | With a four-digit year and two-digit fields, the layout is 20 characters with each field and separator at a fixed position. |
| UtcTime.YearText | isodate.go:88 | The year is written in at least four characters, with a leading `-` exactly for years below zero, followed by digits whose value is the year's magnitude; years 0 to 9999 take exactly four. |
| UtcTime.FormatDateTime | isodate.go:88 | A formatted date and time ends in `Z` and holds no space. |
| UtcTime.FormatUTC | isodate.go:88 | The UTC timestamp of any epoch second ends in `Z` and holds no space. |
| UtcTime.ParseUTC | isodate.go:31 | Text read back as an epoch second has the layout's shape, and it holds a valid date and time that is that second's. |
| UtcTime.ParseFormatUTC | isodate.go:31 | For years 0000 to 9999 the timestamp has the layout's exact shape and reads back as the epoch second that was formatted. |
| UtcTime.BillionDateTime | isodate.go:88 | Epoch second 1000000000 is 2001-09-09 01:46:40 UTC. |
| UtcTime.FormatUTCBillion | isodate.go:88 | Epoch second 1000000000 is written `2001-09-09T01:46:40Z`. |
| Oneline.ReferenceEpoch | isodate.go:106-114 | With no positional argument left after flag parsing the reference epoch is the current time; with one, it is exactly the value `strconv.ParseInt` reads from the first argument, or an error when that fails, and it fits in 64 bits. |
| Oneline.ReferenceEpochOfText | isodate.go:106-112 | Any 64-bit epoch written in decimal as the first positional argument becomes the reference epoch; a negative one reaches this point only after `--`, since flag parsing takes `-5` for an unknown flag. |
| Oneline.WeekLabel | isodate.go:37 | The week label is `W` followed by digits whose value is the week number, three characters for weeks below 100. |
| Oneline.Oneline | isodate.go:28-47 | The printed text is the selected fields joined by single spaces and always ends in a newline. |
| Oneline.SelectorPriority | isodate.go:29-37 | `-u` beats every other flag, `-l` beats `-s` and `-w`, and `-s` beats `-w`; a set flag prints only its own field. |
| Oneline.OnelineSplits | isodate.go:29-45 | Split at spaces, the printed line is the selected field, or the five fields UTC, local, epoch, zone and week when no flag is set. |
| Oneline.OnelineReadsBack | isodate.go:30-35 | The printed epoch reads back as the reference epoch, and so does the printed UTC timestamp for years 0000 to 9999. |
| Replace.TimestampFormat | isodate.go:85-89 | With `-l` a field is rendered in local time, otherwise in the UTC layout. |
| Replace.Target | isodate.go:71-77 | The target field exists exactly when the line has at least `-f` fields. |
| Replace.Expected | isodate.go:71-93 | The cache-free outcome of a line is a written line exactly when the target field exists and parses; ExpectedCases gives the two errors and ExpectedReplacesOnlyTarget the written text. |
| Replace.ExpectedCases | isodate.go:71-82 | A line is written out exactly when its target field exists and parses. A line with too few fields is reported with its field count, and a field that does not parse is reported with its text. |
| Replace.ExpectedReplacesOnlyTarget | isodate.go:91-93 | A line written out is the input line with the target field, and only that field, replaced by the timestamp of its value. |
| Replace.ExpectedEmits | isodate.go:77-93 | A line whose target field reads as n is written out with that field replaced by the timestamp of n. |
| Replace.ExpectedSingleField | isodate.go:91-93 | A line that is a single epoch field becomes that epoch's timestamp alone. |
| Replace.ReplaceSample | isodate.go:68-93 | Field 2 of `id,1000000000,x` split at commas, in UTC, gives `id,2001-09-09T01:46:40Z,x`. |
| Replace.RejectSample | isodate.go:78-81 | Field 2 of `id,notanumber,x` split at commas is reported with its text `notanumber`. |
| Replace.ShortLineSample | isodate.go:72-75 | `onlyonefield` has too few fields for field 2 and is reported with its field count, 1. |
| Replace.SampleEmpty | isodate.go:77-82 | The empty line, at field 1, has an empty target field, which does not parse. |
| Replace.SampleZero | isodate.go:77-93 | The line `0`, at field 1, is replaced by the timestamp of epoch 0. |
| Replace.CacheCoherent | isodate.go:65-89 | The cache invariant: the cache is empty, or it remembers a field text that parses together with the timestamp of its value; so the remembered text is empty or an epoch. |
| Replace.CacheHitMeetsSpec | isodate.go:77-93 | On a coherent non-empty cache, a hit writes out exactly the line a fresh read and format of the field would. |
| Replace.Replacer.constructor | isodate.go:65-66 | The cache starts empty, and it is coherent. |
| Replace.Replacer.ProcessLine | isodate.go:69-93 | One pass of the loop as written: the cache-free outcome, except that an empty target field before any epoch was read leaves the line as it was and writes it out. A reported line leaves the cache unchanged. A written line leaves its field text in `cacheEpoch`. The cache stays coherent. |
| Replace.Replacer.ProcessLineGuarded | isodate.go:77-93 | One pass of the corrected loop: exactly the cache-free outcome, with the same cache invariants. |
| Replace.OutputsAndDiagnosticsCover | isodate.go:68-94 | Every line is either written out or reported, never both and never neither. |
| Replace.DiagnosticsIdentifyLines | isodate.go:69-81 | Each report carries the 1-based number of the line it is about, counting skipped lines. That line's outcome is the reported error, and reports come in increasing line order. |
| Replace.ExpectedOutcomes | isodate.go:68-94 | The specification gives one outcome per input line. |
| Replace.PrimedStep | isodate.go:77-84 | The cache becomes non-empty at the first line whose field is read and stays non-empty. |
| Replace.ReplaceEpoch | isodate.go:61-95 | The loop as written writes out and reports, in input order, exactly the as-written outcome of each line. |
| Replace.ReplaceEpochGuarded | isodate.go:61-95 | The corrected loop writes out and reports, in input order, exactly what the cache-free specification gives for each line. |
| Replace.AsWrittenDiffersOnlyOnEarlyEmpty | isodate.go:65-91 | The loop as written departs from the specification on a line exactly when its target field is empty and no epoch was read before. There it writes the line out unchanged where the specification reports it. |
| Replace.AsWrittenMeetsSpecWithoutEmptyTargets | isodate.go:65-91 | Without empty target fields the loop as written meets the cache-free specification. |
| Replace.EmptyFieldDependsOnHistory | isodate.go:65-91 | On the lines empty, `0`, empty at field 1, the loop as written writes out the first empty line but reports the second, while the specification reports both. |

## Left out

- Reading lines (`bufio.Scanner`), printing, exit statuses and flag parsing are not modelled. The lines are a sequence, the flags are parameters, and the output is the written lines and the diagnostics.
- The text of diagnostics is not modelled, only the line number and the error with its data. Line 73 formats the delimiter with `%d`, so the printed message is garbled.
- Local-time rendering (`-l`), the zone abbreviation and the ISO week number depend on the host's time zone database. They are inputs: `localFormat` of `TimestampFormat`, and the `localText`, `zoneText` and `isoWeek` fields of `Instant`.
- `time.Now()` is the parameter `now` of `ReferenceEpoch`.
- Strings are sequences of Unicode characters, while Go's `strings.Split` and `strings.Index` work on bytes. The two agree on valid UTF-8, but a line that is not valid UTF-8 cannot be represented.
- `bufio.Scanner` ends the loop without a diagnostic at the first line longer than 64 KiB; the model takes every line as read.
- Flag parsing takes an argument such as `-5` for an unknown flag and ends the process, so a negative epoch reaches `ReferenceEpoch` only after `--`; the model starts from the positional arguments left after flag parsing.
- `showVerbose` (lines 50-59) is fixed labelled printing and is not modelled.
- `Config` carries the timestamp rendering as a function value that `TimestampFormat` picks, instead of the `-l` flag itself.
- A field index of 0 or less (Go indexes out of range and panics) and an empty delimiter (Go splits into characters) are excluded by `ValidConfig`.
- FormatUTC: uses exact integer calendar arithmetic for every `int64` epoch. It does not model the overflow inside Go's `time` package for epochs close to the 64-bit limits.
- ParseUTC: reads back only four-digit years, so the round trip `ParseFormatUTC` covers years 0000 to 9999.
- ExpectedReplacesOnlyTarget: states that the text before and after the field is kept, not that the field count is kept. A timestamp can contain the delimiter (`-`, `:` or `T`), and then the output has more fields.
- Replacer: the field slice that the loop overwrites in place is a sequence updated by value, since nothing else refers to it.

## Findings

| source | as written | input that shows it | evidently intended | confidence | as-written member | corrected member |
|---|---|---|---|---|---|---|
| isodate.go:65-77 | `cacheEpoch` starts as the empty string and a cache hit is a target field equal to it, so before the first epoch is read an empty target field is a hit. The line is written out with the field still empty and no diagnostic. After an epoch is read, the same line is reported. | lines empty, `0`, empty, with `-d ,` and `-f 1`: the first line is written out as an empty line, the third is reported | an empty field is never an epoch and is always reported, whatever came before | not executed | Replace.EmptyFieldDependsOnHistory | Replace.ReplaceEpochGuarded |
