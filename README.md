# Spl2Sml conversion core in Dafny

Spl2Sml converts the playout log of a radio automation system into an XML
export for a downstream playout manager. The log is a CSV file with one row
per played item. Each row becomes one `audio` record of the export:

- the time the item played, shifted by a configured offset in milliseconds
  and printed on a 12-hour dial;
- its category;
- its title, artist and category label;
- its length in seconds.

The converter runs in one of two modes:

- **Batch mode** (`-all`) converts every `.csv` file of a source directory once.
- **Periodic mode** converts, at each timer tick, only the most recently
  written `.csv` file.

Rows that fail to parse are reported and skipped.

This project models that core and proves properties of the model:

- `wrappers.dfy` (`Wrappers`): the `Option` type.
- `text.dfy` (`Text`):
  - `String.Split` on one character;
  - `Int32.Parse`: an optional sign, ASCII digits, the 32-bit range;
  - the decimal renderings used by the time format.
- `playouts.dfy` (`Playouts`): the `AudioType` enumeration with its codes, and the `Playout` record.
- `row_parser.dfy` (`RowParser`): the body of the per-row `try` block:
  - the time of day in column 1, the `DateTime` range checks, the offset and the `h:mm:ss` format;
  - the `mm:ss` length in column 6;
  - the fields copied into the record;
  - `RowParse(offset)`, the row parser of a converter constructed with `offset`.
- `playout_list.dfy` (`PlayoutList`):
  - the loop of `GeneratePlayoutList`, as a method over the rows;
  - its specification functions `Converted` and `Rejections`;
  - the row numbers the diagnostic evidently means, `FailedRowNumbers`.

  The loop is stated for any row parser `parse`; the converter passes `RowParse(offset)`.
- `scheduler.dfy` (`Scheduler`):
  - the Windows rules of `FileInfo.Extension`, `Path.ChangeExtension` and `Path.Combine`, with `FileName`, the rule of `Path.GetFileName`, as a specification helper for stating where an export goes;
  - the `.csv` filter;
  - the choice of the newest file;
  - `Convert`, which turns one file into its export and log lines;
  - `RunConversion`, which makes one batch pass or one periodic tick.

  The file system is an input value: the rows of each readable file, and the output paths that cannot be created. The documents written and the lines logged are outputs.
- `program.dfy` (`Program`): how `Main` turns its four arguments into the converter's settings.

Where the code and the documented intent disagree, the model follows the code:

- A category code the CSV reader cannot convert does not fail the row. The
  result of `TryGetField(3, …)` is ignored, so the record gets the
  enumeration's default, `Song`.
- A length may be negative. `int.Parse` accepts a sign and nothing checks
  the result.
- In batch mode, a file that cannot be read or written ends the whole pass,
  not only that file's job. The `foreach` sits inside the one `try` of
  `RunConversion`.
- A failing row is reported as "row N" where N is one more than the number
  of records produced so far, not its position. See Findings.

## Model

| member | source | states |
|---|---|---|
| Playouts.FromCode | Spl2Sml/Converter.cs:34-43 | a decoded code yields the member whose underlying value it is |
| Playouts.CodeRoundTrip | Spl2Sml/Converter.cs:34-43 | every member's value is one of 0, 1, 3, 5, 7, 8, 9 and decodes back to that member |
| Playouts.FromCodeDefined | Spl2Sml/Converter.cs:34-43 | a code decodes exactly when it is one of the seven defined values |
| Playouts.CodeInjective | Spl2Sml/Converter.cs:34-43 | distinct members have distinct values |
| Text.Split | Spl2Sml/Converter.cs:167 | one more piece than separator occurrences, and no piece contains the separator |
| Text.JoinSplit | Spl2Sml/Converter.cs:167 | joining the pieces with the separator gives the text back: splitting loses nothing |
| Text.SplitJoin | Spl2Sml/Converter.cs:189 | splitting separator-free pieces joined by the separator returns exactly those pieces, empty ones included |
| Text.SplitPieceThen | Spl2Sml/Converter.cs:167 | a separator-free first piece followed by the separator splits off as the first piece |
| Text.SplitNoSeparator | Spl2Sml/Converter.cs:189 | text without the separator splits into itself alone |
| Text.ParseInt | Spl2Sml/Converter.cs:173-175 | every parsed value lies in the 32-bit signed range |
| Text.ParseIntAccepts | Spl2Sml/Converter.cs:173-175 | an accepted string is non-empty and, after at most one leading '+' or '-', a non-empty run of digits: anything else is rejected |
| Text.ParseIntSigned | Spl2Sml/Converter.cs:173-175 | a digit string, with no sign, '+' or '-', parses to its value (leading zeros allowed) with that sign when the value fits in 32 bits, and is rejected otherwise |
| Text.ParseIntRejections | Spl2Sml/Converter.cs:173-175 | "1a", "", "+" and "-" are rejected |
| Text.ParseIntSignedExamples | Spl2Sml/Converter.cs:173-175 | "-05" is -5 and "+7" is 7 |
| Text.ParseDigits | Spl2Sml/Converter.cs:173-175 | a non-empty digit string whose value fits in 32 bits parses to that value |
| Text.ParseIntToString | Spl2Sml/Converter.cs:190 | the decimal rendering of every 32-bit integer parses back to it |
| Text.NatToString | Spl2Sml/Converter.cs:205 | the rendering is non-empty, all digits, has the value n, and starts with '0' only for 0 |
| Text.TwoDigits | Spl2Sml/Converter.cs:205 | the `mm`/`ss` rendering is exactly two digits with value n |
| Text.DigitChar | Spl2Sml/Converter.cs:205 | the digit character of d is a digit whose value is d |
| RowParser.Field | Spl2Sml/Converter.cs:165-201 | no contract; the definition is `TryGetField(column, out string)`: the field, or nothing (a null string) past the end of the row |
| RowParser.Clock.Valid | Spl2Sml/Converter.cs:169-175 | no contract; the definition is the ranges the `DateTime` constructor accepts: hour 0-23, minute and second 0-59 |
| RowParser.ParseClock | Spl2Sml/Converter.cs:164-175 | a missing column or fewer than three ':'-pieces fails; every accepted clock is a valid time of day |
| RowParser.ParseClockOfPieces | Spl2Sml/Converter.cs:167-175 | with integer hour, minute and second pieces, the parse gives that clock exactly when it is in range; further pieces are ignored |
| RowParser.ParseClockOfSplit | Spl2Sml/Converter.cs:167-175 | the same, for any text whose first three split pieces parse |
| RowParser.ParseClockRejectsNonInteger | Spl2Sml/Converter.cs:173-175 | a non-integer hour, minute or second piece fails the parse |
| RowParser.ParseClockText | Spl2Sml/Converter.cs:164-175 | the log's `hh:mm:ss` text of any valid clock parses back to that clock |
| RowParser.TimeOfDay | Spl2Sml/Converter.cs:177 | after the offset, the time of day lies in [0, 86 400 000) ms: the date is dropped, wrapping both ways |
| RowParser.OffsetsCompose | Spl2Sml/Converter.cs:177 | applying offsets a then b equals applying a + b; a whole-day offset changes nothing |
| RowParser.FormatClock | Spl2Sml/Converter.cs:205 | no contract; the definition is `ToString("h:mm:ss")` with a ':' time separator; its meaning is stated by `FormatClockReadsBack` and `DialReading` |
| RowParser.Hour12 | Spl2Sml/Converter.cs:205 | the `h` hour is between 1 and 12 |
| RowParser.Hour12Twelve | Spl2Sml/Converter.cs:205 | `h` is 12 exactly for hours 0 and 12, otherwise the hour mod 12 |
| RowParser.FormatClockReadsBack | Spl2Sml/Converter.cs:205 | the played time has three ':'-pieces: an hour without a leading zero, two-character minute and second, parsing to the 12-hour hour, minute and second |
| RowParser.DialReading | Spl2Sml/Converter.cs:205 | the printed reading is the time of day mod 12 hours with the milliseconds truncated: no AM/PM |
| RowParser.NoOffsetPrintsClock | Spl2Sml/Converter.cs:169-205 | with a zero offset the played time is the row's own clock on the 12-hour dial |
| RowParser.PlayedTimeExamples | Spl2Sml/Converter.cs:177-205 | 23:59:30 plus 90 000 ms prints "12:01:00"; 13:05:07 prints "1:05:07" |
| RowParser.ParseLength | Spl2Sml/Converter.cs:182-192 | a missing or empty column is 0 seconds; a non-empty column without ':' fails the row |
| RowParser.ParseLengthOfPieces | Spl2Sml/Converter.cs:189-190 | integer minute and second pieces give 60 × minutes + seconds, whatever follows |
| RowParser.ParseLengthOfSplit | Spl2Sml/Converter.cs:189-190 | the same, for any non-empty text whose first two split pieces parse |
| RowParser.ParseLengthRejectsNonInteger | Spl2Sml/Converter.cs:189-190 | a non-integer minute or second piece fails the row |
| RowParser.PaddedLengthExample | Spl2Sml/Converter.cs:189-190 | "05:30" is 330 seconds |
| RowParser.UncappedLengthExample | Spl2Sml/Converter.cs:189-190 | "5:75" is 375 seconds: seconds are not capped |
| RowParser.DegenerateLengthExamples | Spl2Sml/Converter.cs:185-190 | "" is 0 seconds; "5" fails the row |
| RowParser.LengthExample | Spl2Sml/Converter.cs:189-190 | a rendered minute, ':', and a two-digit second parse to 60 × minutes + seconds |
| RowParser.ParseRow | Spl2Sml/Converter.cs:161-211 | a record exactly when both the time and the length parse. Its fields: no ID; status "Playing"; the decoded category or `Song`; title, artist and label from columns 4, 5 and 7; the parsed length; the offset time printed `h:mm:ss` |
| RowParser.ParseLogRow | Spl2Sml/Converter.cs:161-211 | any well-formed 8-column log row converts to the record carrying its clock shifted and printed, its category (or `Song`), 60 × m + s seconds, and its text fields |
| PlayoutList.Converted | Spl2Sml/Converter.cs:151-213 | no more records than rows |
| PlayoutList.Rejections | Spl2Sml/Converter.cs:153-221 | every row yields a record or a report: records plus reports equal rows |
| PlayoutList.GeneratePlayoutList | Spl2Sml/Converter.cs:147-226 | the loop returns exactly the records of the rows that parse, in order, and reports exactly the specified numbers |
| PlayoutList.NextRow | Spl2Sml/Converter.cs:157-221 | one more row appends its record, or its report numbered one past the records so far |
| PlayoutList.ConvertedSingle | Spl2Sml/Converter.cs:203-219 | one row converts to its record or to nothing |
| PlayoutList.ConvertedAppend | Spl2Sml/Converter.cs:157-222 | converting a concatenation concatenates the conversions: row order is kept and a failure never affects later rows |
| PlayoutList.SkippedRow | Spl2Sml/Converter.cs:215-219 | a failing row between two runs contributes nothing |
| PlayoutList.ConvertedPrefix | Spl2Sml/Converter.cs:157-222 | the records of a prefix of the rows are a prefix of the records |
| PlayoutList.ConvertedAt | Spl2Sml/Converter.cs:203-213 | a row that parses has its record in the list, right after the records of the rows before it |
| PlayoutList.ConvertedFromRows | Spl2Sml/Converter.cs:203-213 | every record in the list is the record of some row |
| PlayoutList.RejectionsPrefix | Spl2Sml/Converter.cs:215-219 | the reports for a prefix of the rows are a prefix of the reports |
| PlayoutList.ReportedNumber | Spl2Sml/Converter.cs:215-221 | a failing row is reported as one more than the number of records before it |
| PlayoutList.ReportedNumberExample | Spl2Sml/Converter.cs:215-221 | rows bad, bad, good, bad are reported as 1, 1, 2 |
| PlayoutList.FailedRowNumbers | Spl2Sml/Converter.cs:217 | the intended numbering: as many numbers as failing rows, each a 1-based row position |
| PlayoutList.FailedRowNumbersIff | Spl2Sml/Converter.cs:217 | n is listed exactly when row n exists and fails |
| PlayoutList.FailedRowNumbersIncrease | Spl2Sml/Converter.cs:217 | the intended numbers are strictly increasing |
| PlayoutList.IncreasingAppend | Spl2Sml/Converter.cs:217 | appending a number above all others keeps a sequence increasing |
| PlayoutList.ReportedLagsPosition | Spl2Sml/Converter.cs:215-221 | the i-th reported number is the i-th failing row's position less i: the two agree only up to the first failure |
| PlayoutList.FailedRowNumbersExample | Spl2Sml/Converter.cs:217 | in the rows bad, bad, good, bad, rows 1, 2 and 4 fail |
| Scheduler.ExtensionDot | Spl2Sml/Converter.cs:95 | the extension's dot is the last '.' with no separator after it; with no separator in the path, none means no '.' |
| Scheduler.Extension | Spl2Sml/Converter.cs:95 | no contract; the definition is `FileInfo.Extension`: from the extension's '.' to the end, empty when there is no '.' or it is the last character; `CsvExtension` states the test made on it |
| Scheduler.CsvExtension | Spl2Sml/Converter.cs:95 | a name has the extension ".csv" exactly when it ends in ".csv" (case-sensitive) |
| Scheduler.ChangeExtension | Spl2Sml/Converter.cs:126 | no contract; the definition is `Path.ChangeExtension`: the path without its extension, a '.', then the new extension; `CsvOutputName` states its effect on a source name |
| Scheduler.Combine | Spl2Sml/Converter.cs:126 | no contract; the definition is `Path.Combine` on Windows: a rooted second path wins, otherwise a '\\' is inserted unless the first ends in a separator |
| Scheduler.OutputPath | Spl2Sml/Converter.cs:126 | no contract; the definition is the destination directory combined with the source name whose extension becomes "xml"; `FileNameOfCombine` and `CsvOutputName` state what it names |
| Scheduler.CsvOutputName | Spl2Sml/Converter.cs:126 | the export of "stem.csv" is named "stem.xml" |
| Scheduler.FileNameOfCombine | Spl2Sml/Converter.cs:126 | the file name of the output path is the name combined into it |
| Scheduler.PlainFileName | Spl2Sml/Converter.cs:126 | a name without separators is its own file name |
| Scheduler.FileNameAfterSeparator | Spl2Sml/Converter.cs:126 | the file name of a path ending in a separator plus a name is that name |
| Scheduler.Where | Spl2Sml/Converter.cs:93-95 | the filter keeps no more than it is given, and only elements satisfying the test |
| Scheduler.WhereIff | Spl2Sml/Converter.cs:93-95 | an element is kept exactly when it is given and satisfies the test |
| Scheduler.WhereAppend | Spl2Sml/Converter.cs:93-95 | filtering a concatenation concatenates the filtered parts: order is kept |
| Scheduler.Candidates | Spl2Sml/Converter.cs:93-95 | at most the listed files, each with the extension ".csv" |
| Scheduler.CandidateIff | Spl2Sml/Converter.cs:93-95 | a file is a candidate exactly when it is listed and its extension is ".csv" |
| Scheduler.CandidatesAppend | Spl2Sml/Converter.cs:93-95 | the candidates of two listings are those of each, in listing order |
| Scheduler.NewestIndex | Spl2Sml/Converter.cs:107-108 | none only for no candidates; otherwise a file with the latest write time and no earlier file as late: the first of equals, since the sort is stable |
| Scheduler.NewestUnique | Spl2Sml/Converter.cs:107-108 | any index with those two properties is the one chosen |
| Scheduler.RejectionLog | Spl2Sml/Converter.cs:217 | one "Unable to parse row" line per reported number, in order |
| Scheduler.ConvertFile | Spl2Sml/Converter.cs:121-135 | the export is written exactly when the file can be read and its output created. The log starts with "Reading" and never holds the completion or error line. The export is at the output path and holds the records of the file's rows. The last line gives its count and path |
| Scheduler.Convert | Spl2Sml/Converter.cs:121-135 | the method's outcome is that of `ConvertFile` |
| Scheduler.ConvertedCount | Spl2Sml/Converter.cs:134 | the count logged is the number of rows less the number of rows reported, and the lines between are the reports |
| Scheduler.BatchPass | Spl2Sml/Converter.cs:97-118 | no contract; the definition is the batch `foreach` inside the one `try`: each file's document and lines in order, then "Conversion complete.", or at the first exception the lines so far and the error line; `BatchAllWritten` and `BatchStopsAtFailure` state its outcomes |
| Scheduler.TickPass | Spl2Sml/Converter.cs:105-118 | no contract; the definition is the periodic branch: nothing without candidates, else the newest candidate's conversion, or its lines and the error line when it throws; `TickConvertsNewest` states its outcomes |
| Scheduler.Run | Spl2Sml/Converter.cs:87-119 | no contract; the definition is one `RunConversion`: the error line alone when the directory cannot be listed, else `BatchPass` or `TickPass` over the candidates |
| Scheduler.BatchPassStep | Spl2Sml/Converter.cs:99-102 | a converted file moves its document and log lines from the pending files to those already done |
| Scheduler.RunConversion | Spl2Sml/Converter.cs:87-119 | the method's documents and log are those of `Run`: an unlistable directory logs the error line, batch mode is `BatchPass` and periodic mode `TickPass` over the candidates |
| Scheduler.BatchAllWritten | Spl2Sml/Converter.cs:97-104 | when every file converts, one document per file in order, then the completion line; no error line unless a file logged one |
| Scheduler.BatchStopsAtFailure | Spl2Sml/Converter.cs:97-118 | when file k is the first that fails, exactly the documents before it and the error line last; no completion line |
| Scheduler.BatchWritesEveryFile | Spl2Sml/Converter.cs:97-104 | a batch whose files all convert writes each file's export at its output path, in order, and logs completion and no error |
| Scheduler.BatchStopsAtUnconvertible | Spl2Sml/Converter.cs:97-118 | a batch whose file k is the first unreadable or unwritable keeps only the exports before k, and logs the error line and never completion |
| Scheduler.TickConvertsNewest | Spl2Sml/Converter.cs:105-118 | a tick writes at most one export, that of the latest-written candidate (the first on a tie), and nothing at all for no candidates. When that candidate converts, its export and log lines are the whole pass; when it cannot be read or written, no export is kept and the last line is the error line |
| Scheduler.TickOfTwo | Spl2Sml/Converter.cs:107-111 | of two candidates, a tick converts the later-written one |
| Program.DecodeArgs | Spl2Sml/Program.cs:9-26 | the usage text exactly when there are not four arguments. A started converter has 32-bit interval and offset, and interval 2 in `-all` mode. A format error names argument 2 or 3 |
| Program.EncodeArgs | Spl2Sml/Program.cs:9-26 | four arguments: the two directories, then `-all` exactly in batch mode |
| Program.NoIntegerIsAllFlag | Spl2Sml/Program.cs:17 | no rendered integer reads as `-all` |
| Program.DecodeEncode | Spl2Sml/Program.cs:17-26 | every setting `Main` can produce is decoded from its canonical command line |
| Program.DecodeNormalises | Spl2Sml/Program.cs:17-26 | decoding the canonical command line of decoded settings gives the same settings |
| Program.StartIff | Spl2Sml/Program.cs:9-26 | a converter starts exactly with four arguments whose third is `-all` or an integer and whose fourth is an integer. It gets the directories, the mode, the interval and the offset as parsed |
| Program.FormatErrorIff | Spl2Sml/Program.cs:17-24 | argument 2 is reported exactly when it is neither `-all` nor an integer; argument 3 exactly when argument 2 is accepted and 3 is not an integer |

## Left out

- The timer, `ConversionTimerOnElapsed` and the "Running next conversion at" lines are not modelled. A tick is one `RunConversion` call in periodic mode, and the model does not say when ticks happen.
- `Console.ReadKey`, the endless `while (true)` in `Main` and the usage text are not modelled. Neither are the constructor's choice between starting the timer and running once, or the `interval * 60 * 1000` conversion and its 32-bit overflow. These are process lifetime and timing.
- `Program.DecodeArgs`: an interval of 0 or less is accepted, as in `Main`, but setting `Timer.Interval` to a non-positive value throws in the constructor (`Spl2Sml/Converter.cs:67`), so such a `Start` is not a running converter. The model does not capture that exception.
- The CSV reader's header handling is not modelled. Depending on the CsvHelper version, the first `Read()` may consume the file's first line as a header, which shifts both the reported and the intended "row N" by one against the file's line numbers. The model numbers the rows the reader delivers.
- Log timestamps (`DateTime.Now`) and message texts are left out. Log lines are a datatype.
- CSV tokenising and quoting (CsvHelper) are left out. A row arrives as its fields. The reader's enum conversion of column 3 arrives as its outcome; the codes themselves are in `Playouts`.
- The date in column 0 is ignored. The model does not capture its `DateTime` range errors, such as an offset that moves a time before 1 January 0001 or after 31 December 9999.
- XML serialisation is not modelled; an export is its path and its records. The `Length` property is left out, and so is the failure of the serialiser on an enum value outside the seven defined ones.
- `RowParser.FormatClock`: the ':' of the format string is the culture's time separator in .NET; the model assumes a culture whose separator is ':' (the invariant or en-US culture). Under a culture with another separator the played time would read "1.05.07", and `FormatClockReadsBack` and `PlayedTimeExamples` would not apply.
- `Text.ParseInt`: leading and trailing white space, thousands separators and culture-specific signs, which `int.Parse` accepts, are not modelled.
- `RowParser.ParseLength`: the length is an unbounded integer. The `(int)` cast of a total above the 32-bit range is not modelled.
- `Scheduler.ConvertFile`: the "Reading" line shows the source directory combined with the name, not the normalised `FullName`.
- `Scheduler.Combine`: only the Windows rules of `Path.Combine` are modelled, and the output directory is used as given.
- The file system: listing order, write times, file contents and whether an output can be created are inputs. Reads and writes that fail part-way are not modelled.
- `Scheduler.RunConversion`: exceptions other than an unlistable directory, an unreadable source or an uncreatable output are not modelled.

## Findings

| source | as written | input that shows it | evidently intended | confidence | as-written member | corrected member |
|---|---|---|---|---|---|---|
| Spl2Sml/Converter.cs:215-221 | the catch block's `continue` skips `counter++`, so "Unable to parse row N" gives one more than the number of rows converted so far | rows bad, bad, good, bad are reported as rows 1, 1, 2 | the 1-based position of the failing row: 1, 2, 4 | high (not executed) | PlayoutList.ReportedNumberExample | PlayoutList.FailedRowNumbersIff |
