# Verified model of parts of bluenet

This project models four parts of the bluenet firmware repository in Dafny 4.11 and
proves properties of them. Run `dafny verify dfyconfig.toml` to check everything.

**Calendar** (`host/include/utils/date.h`): conversion between day counts and civil
dates, weekdays, month arithmetic, nth and last weekdays of a month, ISO weeks, %U, %W
and %j, the combination of scanned fields into one date, and the keyword scanner.
Integer widths are explicit: the year is a `short`, month and day are bytes, the weekday
and its index share a byte, `unsigned` subtraction wraps, and `/` and `%` truncate.
Files: `MachineIntegers`, `CivilCalendar`, `GregorianCalendar`, `Weekdays`,
`MonthArithmetic`, `WeekdayInMonth`, `WeekOfYear`, `DateFields`, `FieldResolution`,
`KeywordScanner`.

**Link check** (`scripts/check-links.py`): the edit distance table, the nearest header
and the header cache. Files: `EditDistance`, `LinkChecker`.

**Log extraction** (`scripts/extract-log-strings.py`): bracket counting, argument
splitting, merging of lines, and what is recorded for a call. Files: `BracketScanner`,
`ScannedText`, `LogCalls`, `LogExtractor`, `LogFiles`, `Text`.

**Boot protocol and DFU transport** (`source/bootloader`, `source/src`): the retained
register GPREGRET as bootloader and application use it, whole runs of a device, and the
packet receipt counter. The three constants by which the bootloader recognises a DFU
request (mask 0xF8, pattern 0xB0, start bit 0x01) are those of the vendor's SDK.
Files: `RetainedRegister`, `Bootloader`, `CrownstoneApp`, `DeviceRuns`, `Board`,
`PacketReceipts`.

## Where the code does less than it promises

- A day whose year does not fit a `short` comes back from `from_days` and `to_days` as
  another day (`CivilCalendar.ToFromDays` gives the exact range), and adding months
  loses the count when the year wraps (`MonthArithmetic.AddThenSubtract`).
- On -32767-01-01 and -32767-01-02 %G wraps and %V is negative (`WeekOfYear.IsoEdge`).
- The parser reads week 53 of a year of 52 weeks and day 366 of a common year as other
  dates (`DateFields.Week53Accepted`, `DateFields.Day366Accepted`); the exact conditions
  are `DateFields.IsoWeekAccepted` and `DateFields.DayOfYearAccepted`.
- `source/shared/cs_GpRegRetConfig.h:16-18` names one register value that looks like a
  DFU request by accident. There are four (`Bootloader.FourCollisions`).
- A DFU request that meets a finished firmware activation is lost and leaves flags behind
  that nobody set (`Bootloader.ActivationLosesRequest`, `DeviceRuns.ActivationForgesRecovery`).
  A request is served exactly in the other passes (`Bootloader.RequestServedIff`), and the
  recovery flag is right throughout a run exactly when no pass finishes an activation
  while the register asks for the update loop and the flag is not set
  (`DeviceRuns.FlagFollowsStep` for one step, `DeviceRuns.FlagTellsIff` for a run).
- A log line that ends in a backslash makes the merged text count other brackets than
  the running sum (`BracketScanner.ContinuationSwallowsBracket`). The sums are right
  exactly when each line, stripped, ends outside of strings and escapes
  (`BracketScanner.SettledIff`); of lines that do so before they are stripped, exactly
  those that strip to text ending in an escape fail (`BracketScanner.ClosedLinesSettle`).
  For a whole file the exact condition is `LogExtractor.BalancedIff`.
- When a week number %U or %W and the weekday lead to the date, %G or %V that came alone
  with them is not looked at (`DateFields.IsoFieldIgnored`).

## Model

| member | source | states |
|---|---|---|
| MachineIntegers.CompensatedDivisionIsFloor | host/include/utils/date.h:2417 | the hand-compensated truncating division is the floor, for every dividend and divisor |
| CivilCalendar.ToDaysClosedForm | host/include/utils/date.h:2407-2422 | for every stored date, valid or not, no unsigned wrap disturbs the day count of the proleptic Gregorian calendar |
| CivilCalendar.LeapRule | host/include/utils/date.h:1477-1480 | truncating remainders give the Gregorian leap rule for negative years too |
| CivilCalendar.OkIsCivil | host/include/utils/date.h:2434-2438 | a date is ok exactly when its year is and its month and day occur in the calendar |
| CivilCalendar.YearOfEraBounds | host/include/utils/date.h:2499 | the year of the era is in 0 to 399 and the day left over fits that year, the 366th only in a leap year |
| CivilCalendar.YearOfEraUnique | host/include/utils/date.h:2499 | every year and day of the year of an era are recovered from the day of the era, which stays below 146097 |
| CivilCalendar.EraOfDay | host/include/utils/date.h:2497-2498 | era and day of the era are the floor quotient and the remainder |
| CivilCalendar.MonthDayOfDay | host/include/utils/date.h:2501-2505 | a day of the year lies in the month found, on an existing day of it, and only day 365 is the 29th of February |
| CivilCalendar.MonthDayOfDate | host/include/utils/date.h:2501-2505 | every month and day is found again from its day of the year |
| CivilCalendar.CivilOfDay | host/include/utils/date.h:2489-2506 | every integer day count leads to a calendar date with that day number |
| CivilCalendar.CivilOfDayNumber | host/include/utils/date.h:2489-2506 | every calendar date of any year is found from its day number |
| CivilCalendar.FromToDays | host/include/utils/date.h:2407-2422 | from_days inverts to_days on every date that is ok |
| CivilCalendar.ToFromDays | host/include/utils/date.h:2489-2506 | to_days inverts from_days exactly on the days whose year fits a short |
| CivilCalendar.FromDaysOk | host/include/utils/date.h:2489-2506 | of the days whose year can be stored, exactly those from the least valid year on give an ok date |
| GregorianCalendar.NextDayNumber | host/include/utils/date.h:2407-2422 | the next date by month lengths and leap rule has the next day number |
| GregorianCalendar.FormulaCounts | host/include/utils/date.h:2489-2506 | for every integer the closed formula gives the date counted out day by day from 1970-01-01 |
| GregorianCalendar.ToDaysCounts | host/include/utils/date.h:2407-2422 | to_days is the number of steps from 1970-01-01 to the date |
| GregorianCalendar.OrderIsDayOrder | host/include/utils/date.h:2450-2457 | of two ok dates one is before the other exactly when its day count is smaller |
| Weekdays.WeekdayIsResidue | host/include/utils/date.h:1565-1569 | for every 32-bit day count the wrapping form is the day plus four modulo seven |
| Weekdays.WeekdayOfLaterDay | host/include/utils/date.h:1642-1647 | the weekday n days later is the weekday plus n |
| Weekdays.BetweenLeadsBack | host/include/utils/date.h:1635-1640 | the difference of weekdays is the only number in 0 to 6 that leads from one to the other |
| Weekdays.BetweenDays | host/include/utils/date.h:1635-1640 | the difference of the weekdays of two days is their distance modulo seven |
| Weekdays.PlusPlus | host/include/utils/date.h:1642-1647 | adding days to a weekday is an action of the integers |
| Weekdays.WeekdayPeriod | host/include/utils/date.h:2407-2422 | dates 400 years apart are ok together and share a weekday |
| MonthArithmetic.AddMonthsOk | host/include/utils/date.h:1915-1921 | the resulting month is in 1 to 12 whatever was added |
| MonthArithmetic.AddMonthsTwice | host/include/utils/date.h:1915-1921 | adding months is an action of the integers, in spite of the wrap of the year |
| MonthArithmetic.AddThenSubtract | host/include/utils/date.h:1933-1936 | the months added are recovered exactly when the year reached fits a short |
| MonthArithmetic.SubtractThenAdd | host/include/utils/date.h:1933-1936 | the difference of two year-months leads from one to the other |
| MonthArithmetic.MonthDistanceLeadsBack | host/include/utils/date.h:1396-1400 | the cyclic difference of months is in 0 to 11 and leads back |
| MonthArithmetic.MonthIgnoresYear | host/include/utils/date.h:1402-1407 | the month of a year-month moves as the month alone |
| WeekdayInMonth.NthRoundTrip | host/include/utils/date.h:2610-2630 | for a valid year, month and weekday, ok holds exactly for the indices that survive conversion to a day and back, of all sixteen |
| WeekdayInMonth.NthOfDayRoundTrip | host/include/utils/date.h:2618-2630 | a day comes back from its nth-weekday form exactly when its year fits a short |
| WeekdayInMonth.NthDayHasWeekday | host/include/utils/date.h:2626-2630 | the day named has the weekday, for every index |
| WeekdayInMonth.NthOkIff | host/include/utils/date.h:2611-2616 | for all values of the fields: valid year and month, weekday in 0 to 7 with 7 a Sunday, and the day of the month exists |
| WeekdayInMonth.LastToDaysFits | host/include/utils/date.h:2746-2750 | the last-weekday day lies in the month, in its last week, and has the weekday |
| WeekdayInMonth.LastToDaysIsLast | host/include/utils/date.h:2746-2750 | no later day of the month has the weekday |
| WeekdayInMonth.LastIsFifthOrFourth | host/include/utils/date.h:2746-2750 | the last weekday is the fifth if ok accepts a fifth, else the fourth |
| WeekOfYear.IsoYearStartBounds | host/include/utils/date.h:4072 | the start of an ISO year is a Monday within three days of the first of January, also where the short year wraps |
| WeekOfYear.FormatGIsIsoYear | host/include/utils/date.h:4065-4073 | %G is the year of the Thursday of the week; one step back is always enough |
| WeekOfYear.IsoRoundTrip | host/include/utils/date.h:4450-4469 | %V is the number of that Thursday in its year, in 1 to 53, and the parser's formula on %G, %V and weekday gives the day back |
| WeekOfYear.IsoEdge | host/include/utils/date.h:4450-4469 | on the two remaining dates the year wraps, %V is negative and the formula gives another day |
| WeekOfYear.ParsedIsoWeek | host/include/utils/date.h:6084-6086 | the formula gives a day of the week and year asked for exactly for the weeks the year has |
| WeekOfYear.WeekRoundTrip | host/include/utils/date.h:4412-4432 | %U or %W (any first weekday) with the weekday determines the day, week 0 included, and is at most 53 |
| WeekOfYear.WeekCounts | host/include/utils/date.h:4412-4432 | %U and %W are the number of Sundays or Mondays in the year up to the date |
| WeekOfYear.DayOfYearRoundTrip | host/include/utils/date.h:4127-4145 | %j determines the day and lies within the length of the year |
| DateFields.FromFields | host/include/utils/date.h:6082-6182 | the code that fills in and compares fields step by step computes the resolution |
| DateFields.WeeksAgree | host/include/utils/date.h:6154-6181 | the checks of week numbers compare with what the formatter prints |
| DateFields.ResolveFindsDate | host/include/utils/date.h:6082-6182 | any fields printed for a date that suffice to determine it resolve to that date, whatever others of its fields come with them |
| DateFields.ResolvedAgrees | host/include/utils/date.h:6082-6182 | a resolved date agrees with every year, month, day, weekday, %U and %W scanned, and with %G and %V unless a week number led to it; for the rest see IsoFieldIgnored and IsoWeekAccepted |
| DateFields.IsoFieldIgnored | host/include/utils/date.h:6101-6155 | with a year, a weekday and %U or %W, and without both of %G and %V, the one of these that is present makes no difference to the outcome |
| DateFields.YearIsAsked | host/include/utils/date.h:6082-6134 | the year the fields combine to is the one scanned, else that of the ISO week day, else none |
| DateFields.DayOfYearAccepted | host/include/utils/date.h:6135-6146 | the resolved date has the day of the year scanned exactly when the year asked for by the fields is long enough |
| DateFields.IsoWeekAccepted | host/include/utils/date.h:6084-6100 | for every year that can be stored, the resolved date has the ISO week scanned exactly when the year has that many weeks |
| DateFields.Day366Accepted | host/include/utils/date.h:6135-6146 | day 366 of 2021 is read as 2021-01-01 |
| DateFields.Week53Accepted | host/include/utils/date.h:6084-6100 | Monday of week 53 of 2021 is read as 2022-01-03, which is in week 1 of 2022 |
| FieldResolution.ResolveIff | host/include/utils/date.h:6082-6231 | for all fields, without the order of the steps: when they contradict each other, which date is resolved otherwise, and what is passed on when they make no date |
| FieldResolution.NoYearPassesOn | host/include/utils/date.h:6134-6231 | without a year, month, day, weekday and day of the year are passed on and nothing is a contradiction |
| FieldResolution.YearAlonePassesOn | host/include/utils/date.h:6147-6184 | a year that leads to no date is passed on with the other fields |
| FieldResolution.YearOutOfRange | host/include/utils/date.h:6082 | a year beyond the valid ones is as good as none |
| KeywordScanner.ScanKeyword | host/include/utils/date.h:3717-3800 | the longest prefix of the input that begins a keyword is consumed, the first keyword equal to it is returned, failure and end-of-input bits are set exactly as stated |
| KeywordScanner.Advance | host/include/utils/date.h:3747-3792 | one character keeps the meaning of every status and both counters |
| KeywordScanner.TestKeywords | host/include/utils/date.h:3760-3776 | the counters stay the numbers of entries in each status while keywords are tested |
| KeywordScanner.NothingToDrop | host/include/utils/date.h:3783 | when the counters add up to at most 1 no earlier full match is left, so the pruning may be skipped |
| KeywordScanner.LongestIsUnique | host/include/utils/date.h:3717-3800 | what ScanKeyword says of the text consumed fixes its length |
| KeywordScanner.UpperAgrees | host/include/utils/date.h:3747-3765 | two characters count as the same exactly when they are equal or the two cases of one ASCII letter |
| EditDistance.Levenshtein | scripts/check-links.py:90-111 | the table computes the recurrence in its last cell |
| EditDistance.DistanceIsOptimal | scripts/check-links.py:90-111 | no script of insertions, deletions and substitutions anywhere in the string is shorter than the distance, and one is as short |
| EditDistance.BestScriptWorks | scripts/check-links.py:106-109 | a script read off the recurrence turns one string into the other in as many edits as the distance |
| EditDistance.ScriptsAreLong | scripts/check-links.py:90-111 | every script that does so is at least as long as the distance |
| EditDistance.DistanceZero | scripts/check-links.py:90-111 | the distance is zero exactly for equal strings |
| EditDistance.DistanceSymmetric | scripts/check-links.py:90-111 | the distance is symmetric |
| EditDistance.DistanceTriangle | scripts/check-links.py:90-111 | the triangle inequality |
| EditDistance.DistanceBounds | scripts/check-links.py:90-111 | at most the longer length, at least the difference of the lengths |
| LinkChecker.Checker.GetHeaders | scripts/check-links.py:26-44 | a file is read at most once, an unreadable file has no headers |
| LinkChecker.Checker.GetSuggestion | scripts/check-links.py:80-88 | the first of the nearest headers, or nothing when none is below the initial bound |
| LinkChecker.Checker.LinkResult | scripts/check-links.py:68-77 | a link is reported, with that suggestion, exactly when it is not among the headers |
| LinkChecker.SomeHeaderIsNearest | scripts/check-links.py:80-88 | for texts shorter than the bound there is a nearest header as soon as there is a header, at a distance above 0 for a broken link |
| LinkChecker.SuggestionIsClose | scripts/check-links.py:80-88 | after n typing errors the suggestion is at most 2n edits from the header that was meant |
| LinkChecker.HeaderIff | scripts/check-links.py:22 | exactly the lines of hashes, a blank and a title are headers, and the newline is no part of the title |
| LinkChecker.AnchorOfTitle | scripts/check-links.py:36-39 | a header links with a dash for each blank, lower case for each capital letter, and other characters unchanged |
| LinkChecker.HeadersInOrder | scripts/check-links.py:31-40 | the headers of a file are those of its lines, in order |
| BracketScanner.CountBrackets | scripts/extract-log-strings.py:233-260 | the loop computes the brackets opened less those closed, outside of strings and escapes |
| BracketScanner.GetArgs | scripts/extract-log-strings.py:264-308 | the loop computes the arguments and the index of the closing bracket |
| ScannedText.ClosedIff | scripts/extract-log-strings.py:233-260 | exactly the texts made of brackets, strings, escaped characters and others end outside of strings and escapes, and the brackets counted are those outside of strings |
| ScannedText.QuotedIsSkipped | scripts/extract-log-strings.py:246-256 | a string in either quote is skipped, with any brackets, commas, escapes and other quotes in it |
| ScannedText.PieceIff | scripts/extract-log-strings.py:264-308 | exactly the texts of such tokens that nest, without a comma outside of brackets and strings, are arguments |
| ScannedText.StringArgsRoundTrip | scripts/extract-log-strings.py:264-308 | arguments that are strings of any texts in either quote, escaped as C has it, are read back as these texts in their quotes |
| BracketScanner.ArgsInvertsJoin | scripts/extract-log-strings.py:264-308 | an index and a list are returned exactly when the text up to that index is a printed argument list with that content, closed there |
| BracketScanner.ArgsRoundTrip | scripts/extract-log-strings.py:264-308 | arguments without backslashes come back stripped from between any texts, trimmed ones unchanged |
| BracketScanner.ArgsFoundFrom | scripts/extract-log-strings.py:286-307 | a closing bracket is found exactly when some further characters close one bracket more than they open |
| BracketScanner.StripParts | scripts/extract-log-strings.py:304-305 | stripping removes space at both ends, all of it and nothing else |
| BracketScanner.AsciiSpace | scripts/extract-log-strings.py:304-305 | which ASCII characters are stripped |
| BracketScanner.MergedCounts | scripts/extract-log-strings.py:109-114 | the running sum of settled lines is that of the merged text |
| BracketScanner.SettledIff | scripts/extract-log-strings.py:109-114 | after every number of lines the running sum is that of the merged text and the text ends outside of strings and escapes, exactly when each stripped line does |
| BracketScanner.ClosedLinesSettle | scripts/extract-log-strings.py:109-114 | for lines that each end outside of strings and escapes this fails exactly when some line, stripped, ends inside an escape |
| BracketScanner.JoinPrefix | scripts/extract-log-strings.py:286-307 | a printed argument list nowhere closes more brackets than it opened, and closes all of them |
| BracketScanner.ContinuationSwallowsBracket | scripts/extract-log-strings.py:109-114 | two lines that each end outside of strings and escapes, but merge to text with another bracket count |
| BracketScanner.MergedCallIsFound | scripts/extract-log-strings.py:109-120 | when the sum reaches 0 after balanced text before the call, the closing bracket of the call is found |
| LogExtractor.LogStringExtractor.ParseFile | scripts/extract-log-strings.py:95-152 | exactly the calls of the line machine are recorded, in order, and it stops as that does |
| LogExtractor.LogStringExtractor.ParseLogLine | scripts/extract-log-strings.py:154-177 | the entry of the call, and nothing else, is added; a failure raises |
| LogExtractor.LogStringExtractor.ParseLogArrayLine | scripts/extract-log-strings.py:179-231 | the same for array calls, whose failures are caught |
| LogCalls.FindFrom | scripts/extract-log-strings.py:51 | what is found is an occurrence on the first line, and no earlier one |
| LogCalls.FindIsFirst | scripts/extract-log-strings.py:51 | the first occurrence on the first line is found |
| LogCalls.CallTailIff | scripts/extract-log-strings.py:51 | a line holds a call exactly when its name occurs before any newline |
| LogCalls.CallIsRecorded | scripts/extract-log-strings.py:154-231 | a preprocessed log or log array call anywhere in a line yields its file name, line number and format strings, whatever those strings hold |
| LogCalls.CallOutcome | scripts/extract-log-strings.py:154-231 | for every printed call: it raises exactly as a log call that names a file and has too few arguments, a bad line number or a bad name, and is passed over exactly when it names no file or is such an array call |
| LogCalls.NameOfIff | scripts/extract-log-strings.py:164-168 | a name is read exactly when the argument has closed fileNameHash brackets and the name consists of bytes |
| LogFiles.WholeCallIsRecorded | scripts/extract-log-strings.py:104-152 | a call on one line of a file, between balanced texts, is handed over once and its entry is recorded |
| LogFiles.BrokenCallIsRecorded | scripts/extract-log-strings.py:104-152 | a call of either kind broken inside its brackets over any number of settled lines of a file is handed over once, as the merged text, and its entry is recorded |
| LogFiles.WholeCallOutcome | scripts/extract-log-strings.py:104-177 | on one line: reading stops exactly at a faulty log call; calls that name no file, as the declarations of the log functions, and faulty array calls change nothing |
| LogFiles.BrokenCallOutcome | scripts/extract-log-strings.py:104-177 | the same for calls broken over several lines |
| LogFiles.TooManyIff | scripts/extract-log-strings.py:124-150 | reading stops for too many closing brackets exactly on a line outside of a merged call that holds a call and closes more than it opens |
| LogFiles.OtherLineChangesNothing | scripts/extract-log-strings.py:104-152 | a line without a call outside of a merged one changes nothing |
| LogFiles.BothAreHandled | scripts/extract-log-strings.py:122-152 | calls of both kinds on one balanced line are both handed over, the log call first |
| LogFiles.MergedIntoOne | scripts/extract-log-strings.py:109-135 | lines whose brackets stay open up to the last become one call |
| LogExtractor.CommentsAreSkipped | scripts/extract-log-strings.py:105-107 | lines that begin with # make no difference, wherever they stand |
| LogFiles.EntryOfFile | scripts/extract-log-strings.py:173-177 | an entry recorded at a call is still there at the end of the file, and under its file name, unless a later call has the same kind, hash and line, or another name with the same hash |
| LogExtractor.CallsAreKept | scripts/extract-log-strings.py:104-152 | everything merged or handed over matches the call pattern again when it is parsed |
| LogExtractor.CallsAreBalanced | scripts/extract-log-strings.py:104-152 | over every file whose lines settle, each call handed over is balanced and the running count is that of the merged text |
| LogExtractor.BalancedIff | scripts/extract-log-strings.py:104-152 | that holds at every line of a file exactly when each line that is merged or handed over ends, as it is used, outside of strings and escapes |
| LogExtractor.FedBalances | scripts/extract-log-strings.py:104-152 | the same if and only if for one line, for every state of the merging and both kinds of call |
| LogExtractor.SettledLinesSettle | scripts/extract-log-strings.py:104-152 | it is enough that every stripped line of the file does |
| LogExtractor.CallArgsAreFound | scripts/extract-log-strings.py:104-157 | in such a file the arguments of each call are found if the text before it is balanced |
| LogCalls.RemoveQuotes | scripts/extract-log-strings.py:346-368 | the loop computes the contents of the string literals |
| LogCalls.LiteralText | scripts/extract-log-strings.py:346-368 | a literal yields its text |
| LogCalls.SpellingText | scripts/extract-log-strings.py:346-368 | literals with any text but quotes and backslashes between them yield their texts, put together |
| LogCalls.GetFileNameHash | scripts/extract-log-strings.py:333-344 | the loop computes the hash of a file name |
| LogCalls.HashIgnoresDirectory | scripts/extract-log-strings.py:333-344 | the hash depends on the base name alone |
| LogCalls.NameHashClosed | scripts/extract-log-strings.py:333-344 | the hash of a base name is 5381 and the characters weighted by powers of 33, modulo 2^32 |
| RetainedRegister.CountUp | source/bootloader/main.c:177-182 | counting below the maximum adds one and never carries into the flags |
| RetainedRegister.FieldsAreSeparate | source/src/drivers/cs_GpRegRet.cpp:37-90 | setting the counter or a flag leaves all other fields alone |
| RetainedRegister.Power.SetCounter | source/src/drivers/cs_GpRegRet.cpp:52-63 | the counter is replaced, capped at its maximum |
| Bootloader.Loader.CheckGpregret | source/bootloader/main.c:159-190 | the register after the boot-time check |
| Bootloader.Loader.DfuEnterCheck | source/bootloader/nrf_bootloader.c:303-332 | the update loop is wanted for an invalid application or a marked register |
| Bootloader.Loader.DfuEnterFlagsClear | source/bootloader/nrf_bootloader.c:281-299 | a mark is taken out of the register, anything else stays |
| Bootloader.Loader.Run | source/bootloader/nrf_bootloader.c:396-486 | register and outcome of a whole pass for every activation result |
| Bootloader.UpdateLoopIffRequested | source/bootloader/main.c:159-190 | for all 256 registers, every activation result and either validity of the application: exactly when the update loop is entered |
| Bootloader.RequestServedIff | source/bootloader/nrf_bootloader.c:424-443 | a request or a full counter leads to the update loop exactly when no activation was finished in the pass; otherwise the mark is left in the register |
| Bootloader.OutcomeIff | source/bootloader/nrf_bootloader.c:424-486 | for every register, activation result and validity: exactly when a pass resets, fails, or starts the application |
| Bootloader.ActivationCounts | source/bootloader/nrf_bootloader.c:431-443 | a pass that finishes an activation without a request adds one to the counter and keeps the flags |
| Bootloader.FourCollisions | source/shared/cs_GpRegRetConfig.h:16-18 | the colliding values are 0xB1, 0xB3, 0xB5 and 0xB7 |
| Bootloader.AppBootCounts | source/bootloader/main.c:177-182 | an ordinary boot adds one to the counter and keeps the flags |
| Bootloader.UpdateLoopClears | source/bootloader/nrf_bootloader.c:281-299 | entering the update loop leaves no mark, clears the register on request, and drops the recovery flag exactly with a mark |
| Bootloader.ActivationLosesRequest | source/bootloader/nrf_bootloader.c:431-443 | a request that meets an activation, successful or failed, starts the application next time, with brownout and recovery flags set |
| CrownstoneApp.Crownstone.InitDrivers0 | source/src/cs_Crownstone.cpp:289-318 | which event start-up waits for; the register stays |
| CrownstoneApp.Crownstone.InitDrivers1 | source/src/cs_Crownstone.cpp:352-370 | factory reset forced from count 29, recovery flag consumed, switch set on |
| CrownstoneApp.Crownstone.OnTick | source/src/cs_Crownstone.cpp:798-825 | the register is cleared once, at the tick of the timeout, with a 32-bit tick count |
| CrownstoneApp.Crownstone.HandleEvent | source/src/cs_Crownstone.cpp:849-883 | fields and register after each event |
| CrownstoneApp.Crownstone.CountAndReset | source/src/processing/cs_CommandHandler.cpp:31-51 | a requested reset sets the counter to 1 and keeps the flags |
| Board.Board.Take | source/src/cs_Crownstone.cpp:849-883 | the objects of bootloader and application, sharing the register, follow every step of the device model |
| Board.Board.TakeAll | source/src/cs_Crownstone.cpp:849-883 | and every run of it, with a new application object at each start |
| DeviceRuns.FlagMeansWanted | source/src/cs_Crownstone.cpp:857-878 | after every run without a forging pass the recovery flag says exactly whether erased pages still wait for their state; the tick never drops it |
| DeviceRuns.FlagFollowsStep | source/src/cs_Crownstone.cpp:857-878 | for every step, activations included, flag and wish change alike exactly when the step is not a forging pass |
| DeviceRuns.FlagTellsIff | source/src/cs_Crownstone.cpp:857-878 | the flag is right at every moment of a run exactly when no pass of it forges |
| DeviceRuns.RestoredWhenWanted | source/src/cs_Crownstone.cpp:359-370 | after every run without a forging pass an initialized storage sets the switch on exactly when pages were erased since it last did, and then the flag is gone |
| DeviceRuns.RecoverySurvives | source/src/cs_Crownstone.cpp:857-878 | the flag survives every run, with any activations, in which no DFU request is taken until the first initialized storage, which applies it |
| DeviceRuns.ActivationForgesRecovery | source/bootloader/nrf_bootloader.c:431-443 | a run in which an activation makes the recovery flag appear without erased pages |
| DeviceRuns.StartedByPass | source/bootloader/nrf_bootloader.c:424-486 | over every run, a running application was started by a pass without activation, of a valid application, with no request, full counter or collision |
| DeviceRuns.StartUpWaits | source/src/cs_Crownstone.cpp:289-318 | which event can come next follows the state of the flash |
| DeviceRuns.StartUpKeepsWaiting | source/src/cs_Crownstone.cpp:289-318 | and stays awaited over any number of power warnings |
| DeviceRuns.ResetsIff | source/src/cs_Crownstone.cpp:849-883 | exactly which events end in a reset |
| DeviceRuns.DfuCommandUpdates | source/src/processing/cs_CommandHandler.cpp:41-50 | after the command to update, the next boot enters the update loop with a clear register, unless it finishes an activation |
| DeviceRuns.BrownoutMeansWarned | source/src/common/cs_Handlers.cpp:155-163 | over every run the brownout flag says exactly whether a power warning is left that neither the tick nor a DFU request took away |
| DeviceRuns.StoredStateStep | source/src/cs_Crownstone.cpp:352-370 | only an initialized storage changes the stored mode and switch, exactly from count 29 on and exactly with the recovery flag |
| DeviceRuns.ModeOfRun | source/src/cs_Crownstone.cpp:352-357 | over every run the mode is factory reset exactly when it was so or some storage was initialized at a count of 29 or more |
| DeviceRuns.CrashLoopCounts | source/bootloader/main.c:159-190 | over every crash loop, whatever flags are set and pages erased in it, the counter grows by the number of boots |
| DeviceRuns.CrashLoopEnds | source/bootloader/main.c:159-190 | every device that keeps crashing, with enough boots, enters the update loop no later than at boot 32 - c from count c |
| DeviceRuns.FactoryResetTriedThrice | source/src/cs_Crownstone.cpp:352-357 | a crash loop from a count of at most 28 whose starts are initialized has forced three factory resets when the counter is full, and is then in the update loop |
| DeviceRuns.HealthyNeverUpdates | source/shared/cs_GpRegRetConfig.h:20-23 | over every run in which resets come on request or after the delayed clear, the counter stays at most 2, the update loop is never entered and the mode stays |
| DeviceRuns.TicksClear | source/src/cs_Crownstone.cpp:809-812 | any number of ticks clears the register when the timeout is passed, and never again |
| PacketReceipts.Transport.RequestHandlerCallback | source/bootloader/nrf_dfu_ble.c:359-418 | counters and response for every answer |
| PacketReceipts.Transport.OnCtrlPtWrite | source/bootloader/nrf_dfu_ble.c:420-458 | creating an object or setting the target resets the counter |
| PacketReceipts.ResponsesFit | source/bootloader/nrf_dfu_ble.c:363-417 | every response fits its buffer and a write is never answered as a write |
| PacketReceipts.AnswerIsSent | source/bootloader/nrf_dfu_ble.c:378-417 | every answer but that of a write is sent once, with its operation, result and length, and the counters stay |
| PacketReceipts.SentWhatIsDue | source/bootloader/nrf_dfu_ble.c:359-418 | over every sequence of events the responses in order are the answers to the other requests and one checksum for each completed group, with the results given |
| PacketReceipts.CounterHoldsMissing | source/bootloader/nrf_dfu_ble.c:366-374 | after every sequence of events the counter holds the packets missing from the group, in 1 to the target |
| PacketReceipts.AnsweredWhenComplete | source/bootloader/nrf_dfu_ble.c:366-376 | a write is answered, with a checksum, exactly when it completes a group; with target 0 never |
| PacketReceipts.NotificationsPerWrites | source/bootloader/nrf_dfu_ble.c:366-376 | k writes after a reset bring exactly k / n notifications |

## Left out

- Signed overflow: day counts, week numbers and month counts are unbounded integers where
  the original has a 32-bit int whose overflow is undefined.
- Formatting and scanning of characters in `to_stream` and `from_stream`, time of day,
  time zones, floating-point durations, locales, and the %C, %y and %g century rules.
- `year_month_day` plus months, `month_day` and the other date types that only combine
  the ones modelled.
- DateFields.ResolvedAgrees: %U and %W are claimed for the two digits the reader takes by
  default; with a wider field the year of the trial date may wrap.
- DateFields.IsoWeekAccepted: stated for week numbers of the two digits the reader takes by
  default and for the years a `short` holds as valid.
- KeywordScanner.ScanKeyword: `toupper` is that of the C locale, allocation does not fail.
- EditDistance.Levenshtein: the table of the original holds floating-point numbers, which
  are exact for any size of text that fits in memory.
- LinkChecker.Checker.GetHeaders: file contents are a parameter; lower case is that of
  ASCII letters. The search for links in the text of a file is not modelled.
- LogExtractor.LogStringExtractor.ParseLogLine: line numbers are decimal digits; the
  other forms Python's `int` accepts count as failures.
- The order of files, and the export of what was extracted.
- Backslash escapes in log strings: the argument scanner drops a backslash before the
  quotes are removed, so the round trip is claimed for texts without any.
- LogFiles.BrokenCallIsRecorded: a call whose text is followed on its last line by
  unbalanced text is not covered, as it is then merged with further lines.
- Validation, activation and backup of firmware images, and initialization failures of
  the bootloader: the activation result and the validity of the application are inputs.
- CrownstoneApp.Crownstone.HandleEvent: events come only when the start-up got that far.
  Stored state is kept at once; the delay until it is written to flash is not modelled,
  nor what a factory reset does afterwards.
- Loss of power, which clears the register, and GPREGRET2.
- The contents of DFU responses beyond code, result and length, and the connection state.
