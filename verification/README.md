# Temporal arithmetic, channel I/O, process spawning and hashing: a model with proofs

This project models five parts of an OCaml library collection that are written in JavaScript and C, and proves
what they promise.

- **ISO calendar and time arithmetic** of the Temporal polyfill: balancing of dates and times, addition and
  difference of dates and date-times, rounding, week numbers, the search for time-zone transitions, the way from a
  wall-clock reading to instants, the search that inverts an opaque calendar, and the text forms of durations and
  offsets (`JsNumbers`, `IsoDate`, `IsoDifference`, `TimeOfDay`, `DateTimes`, `Rounding`, `Weeks`,
  `ZoneTransitions`, `Instants`, `WallClock`, `CalendarSearch`, `Overflows`, `Decimals`, `OffsetText`, `DurationText`).
- **Buffered channel I/O of bigstrings** against a kernel whose answers are arbitrary: what a
  sequence of answers demands (`KernelAnswers`), and the stubs that deliver it (`Channels`).
- **Process spawning**: the descriptor shuffle before exec (`FdTables`), the mutex, pipe and fork protocol as an
  interleaving of thread, child and program steps (`SpawnProtocol`), what it guarantees (`SpawnGuarantees`), and runs
  that show the limits (`SpawnRuns`).
- **Hash folding**: SipHash 1-3 and the Murmur-style blob fold (`MachineWords`, `SipHash`, `BlobHash`).
- **Base-4 exponentiation** in C and in the JavaScript runtime (`Power`).

Conventions. Numbers and BigInts of the date code are unbounded integers; BigInt division and remainder truncate,
and are written out in `JsNumbers`. `Math.floor(2.6 * o - .2)` is `(13 * o - 1) / 5` floored. A valid date stands for
its proleptic Gregorian day number; day 719529 is 1 January 1970. Machine words are bounded integers with explicit
reduction, and the bitwise or of bytes at different places is their sum. The offset function of a named time zone, the
calendar oracle, the first estimate of the calendar search, the current time, and the answers of the kernel are
parameters. A RangeError is the `RangeError` case of `Results.Result`. Everything starts from `dfyconfig.toml`.

Where the code and what one expects of it differ, the model follows the code:

- The previous-transition search gives up before probing the last fortnight above its lower limit. A search from more
  than ten years ahead scans a stretch below its start and then starts again from ten years ahead; it skips what lies
  between the two, exactly when they do not meet (`ZoneTransitions.SearchIsCompleteIfScansMeet`, with an input in
  `ZoneTransitions.ChangeBetweenTheScans`).
- Near the first and last instant, `getPossibleInstantsFor` moves a probe to the reading itself and can miss an
  instant: exactly when `Missed` holds, which compares the offset at the first or last instant with that at the reading
  (`WallClock.PossibleAreSolutions`, with an input in `WallClock.FirstInstantIsMissed`).
- `DifferenceISODateTime` moves the start date by a day when the clock runs against the calendar; with years or months
  the clamping of that other day can make the sum miss: exactly when `ComesBack` fails, a condition on the two
  date-times and the unit (`DateTimes.DifferenceThenAdd`, with an input in `DateTimes.ClampedStartDoesNotComeBack`).
- `RoundInstant` and `RoundTime` round only a part of the number; ties to even look at the wrong neighbour exactly when
  an odd number of increments was split off (`Rounding.RoundInstant` and `Rounding.RoundTime`, with inputs in
  `Rounding.RoundInstantMissesTie` and `Rounding.RoundTimeMissesTie`).
- The input of a channel asks the kernel unless bytes are ahead that fill the whole request, even when they already reach
  `min_len`; the first answer that is not an interrupt then decides, and can be an error or the end of the file
  (`Channels.Input` and `KernelAnswers.FirstAnswerDecides`, with an input in `KernelAnswers.EndOfFilePastTheMinimum`).
- `subprocess` overwrites the failure pipe if its descriptor is 0, 1 or 2 (`FdTables.PipeSurvives`), which happens when
  the parent has at most one of these open as the pipe is made (`SpawnGuarantees.WriteEndBelowThree`). A failure of
  exec is then not told to the parent, exactly then (`SpawnGuarantees.FailureIsToldFromThree`), and `spawn_unix` reports
  that the program was started (`SpawnGuarantees.CallerIsToldTheTruth`, with a run in
  `SpawnRuns.FailedExecIsReadAsStarted`).
- `spawn_unix` does not check that the standard descriptors are open. If one is closed, the error pipe can take its
  number and be passed to the program (`SpawnRuns.ClosedDescriptorLeaks`). What is said of programs and results is for
  runs with only clean forks (`CleanRun`), which no weaker condition could replace
  (`SpawnGuarantees.ForkLeaksUnlessClean`), and which calls with open descriptors guarantee
  (`SpawnGuarantees.ProperRunIsClean`).

## Model

| member | source | states |
|---|---|---|
| JsNumbers.DivMod | packages/core/core/src/temporal-polyfill/temporal-polyfill.js:501-506 | BigInt division truncates toward zero: quotient times divisor plus remainder is the dividend, the remainder is smaller than the divisor, and neither part disagrees in sign with the dividend |
| JsNumbers.NonNegativeBigIntDivmod | packages/core/core/src/temporal-polyfill/temporal-polyfill.js:3742-3750 | the repair of the truncated division gives the floored quotient and a remainder that is never negative |
| IsoDate.DayNumberCountsDays | packages/core/core/src/temporal-polyfill/temporal-polyfill.js:2337-2346 | the reference for everything below: the day after any valid date is a valid date with the next day number, for all years including negative ones |
| IsoDate.CompareIsDayOrder | packages/core/core/src/temporal-polyfill/temporal-polyfill.js:3733-3741 | the lexicographic comparison of two valid dates is the sign of the difference of their day numbers, and 0 only for the same date |
| IsoDate.DayOfYear | packages/core/core/src/temporal-polyfill/temporal-polyfill.js:2355-2359 | the day of the year is the number of days since the end of the year before |
| IsoDate.BalanceISOYearMonth | packages/core/core/src/temporal-polyfill/temporal-polyfill.js:2386-2394 | for any year and month the result is the one year and month 1 to 12 with the same count of months |
| IsoDate.CenturiesMoved | packages/core/core/src/temporal-polyfill/temporal-polyfill.js:2403-2407 | the jump by multiples of 146097 days and 400 years keeps the day, in either direction |
| IsoDate.YearMovedBack | packages/core/core/src/temporal-polyfill/temporal-polyfill.js:2408-2410 | one step of the first year loop keeps the day; the year whose leap day counts is the one whose February lies between the two dates |
| IsoDate.YearMovedOn | packages/core/core/src/temporal-polyfill/temporal-polyfill.js:2411 | one step of the second year loop, with its shifted leap-year index, keeps the day |
| IsoDate.BalanceISODate | packages/core/core/src/temporal-polyfill/temporal-polyfill.js:2395-2425 | for every integer year, month and day the loops end in the one valid date with the same day number |
| IsoDifference.ConstrainISODate | packages/core/core/src/temporal-polyfill/temporal-polyfill.js:2701-2708 | the year stays, the month becomes the nearest of 1 to 12, and the day the nearest that exists in that month; a valid date stays as it is |
| IsoDifference.RegulateISODate | packages/core/core/src/temporal-polyfill/temporal-polyfill.js:811-830 | a valid date passes unchanged; any other is constrained, or under reject is a RangeError |
| IsoDifference.AddISODate | packages/core/core/src/temporal-polyfill/temporal-polyfill.js:3106-3118 | addition is by whole months with the day clamped to the month reached, then by days; under reject it throws exactly when the day does not exist in that month |
| IsoDifference.DifferenceInMonths | packages/core/core/src/temporal-polyfill/temporal-polyfill.js:2740-2795 | the branch for years and months returns a difference in the sense of `IsDifference` |
| IsoDifference.DifferenceInDays | packages/core/core/src/temporal-polyfill/temporal-polyfill.js:2797-2827 | the branch for weeks and days returns a difference in the sense of `IsDifference` |
| IsoDifference.DifferenceISODate | packages/core/core/src/temporal-polyfill/temporal-polyfill.js:2739-2830 | for any two valid dates in either order and each largest unit: adding the result to the first date gives the second, no component disagrees in sign with the direction, months are at most 11 under year and days at most 6 under week, and one more year or month would go past the second date |
| IsoDifference.DifferenceUnique | packages/core/core/src/temporal-polyfill/temporal-polyfill.js:2739-2830 | that description determines the result: no other duration satisfies it |
| IsoDifference.DifferenceHasWholeMonths | packages/core/core/src/temporal-polyfill/temporal-polyfill.js:2740-2795 | the months of a difference in years or months are those between the months of the two dates, one less if the day of the month has not been reached: a count read off the date fields alone |
| TimeOfDay.BalanceTime | packages/core/core/src/temporal-polyfill/temporal-polyfill.js:2451-2469 | any six time fields become a valid time of day and a number of days with the same total of nanoseconds |
| TimeOfDay.TotalDurationNanoseconds | packages/core/core/src/temporal-polyfill/temporal-polyfill.js:2470-2480 | the nested sum is the length of the duration in nanoseconds; an offset shift counts only if there are days |
| TimeOfDay.DurationSign | packages/core/core/src/temporal-polyfill/temporal-polyfill.js:2379-2385 | the sign of the first field that is not zero |
| TimeOfDay.NanosecondsToDays | packages/core/core/src/temporal-polyfill/temporal-polyfill.js:2481-2532 | whole days of 24 hours truncated toward zero, and a rest of less than a day with the same sign |
| TimeOfDay.BalanceDuration | packages/core/core/src/temporal-polyfill/temporal-polyfill.js:2538-2600 | balancing keeps the total of nanoseconds, gives every field the sign of the total, fills every field below the largest unit to less than one of the next, and leaves nothing above it |
| TimeOfDay.BalanceUnique | packages/core/core/src/temporal-polyfill/temporal-polyfill.js:2538-2600 | two balanced durations of the same total and largest unit are equal |
| TimeOfDay.DifferenceTime | packages/core/core/src/temporal-polyfill/temporal-polyfill.js:2831-2851 | the difference of two times of day has their exact difference in nanoseconds, one sign, and fields in range |
| TimeOfDay.AddTime | packages/core/core/src/temporal-polyfill/temporal-polyfill.js:3119-3138 | the sum is a valid time of day and a number of days with the exact total of nanoseconds |
| DateTimes.BalanceISODateTime | packages/core/core/src/temporal-polyfill/temporal-polyfill.js:2426-2450 | any nine fields become the valid date-time at the same place on the time line |
| DateTimes.EpochNsUnique | packages/core/core/src/temporal-polyfill/temporal-polyfill.js:2216-2223 | two valid date-times with the same nanoseconds since 1970 are equal |
| DateTimes.RangeIsConvex | packages/core/core/src/temporal-polyfill/temporal-polyfill.js:2715-2717 | a date between two dates in the supported range is in the range, so the intermediate dates of a difference never throw |
| DateTimes.DifferenceISODateTime | packages/core/core/src/temporal-polyfill/temporal-polyfill.js:2863-2899 | the result never throws for dates in range and is a difference in the sense of `IsDateTimeDifference`: the calendar part runs from the start date, moved by one day when the clock runs against the calendar, the rest is the exact clock difference, and nothing disagrees in sign |
| DateTimes.DateTimeDifferenceUnique | packages/core/core/src/temporal-polyfill/temporal-polyfill.js:2863-2899 | that description determines the result: no other duration satisfies it |
| DateTimes.DateAdd | packages/core/core/src/temporal-polyfill/temporal-polyfill.js:4426-4435 | a duration of whole days passes through balancing unchanged; the result is the date sum if it exists and is in range |
| DateTimes.AddDateTime | packages/core/core/src/temporal-polyfill/temporal-polyfill.js:3188-3212 | the sum is the place on the time line reached by months first and exact time afterwards; it throws exactly when the dates leave the range, the carried day disagrees in sign, or the day does not exist under reject |
| DateTimes.DifferenceThenAdd | packages/core/core/src/temporal-polyfill/temporal-polyfill.js:2863-2899 | for largest unit week or smaller, adding the difference back always gives the second date-time; for year and month, if and only if `ComesBack` holds of the two date-times and the unit: no day is borrowed, or moving the start date and its neighbour by the whole months between the dates clamps both or neither |
| DateTimes.ClampedStartDoesNotComeBack | packages/core/core/src/temporal-polyfill/temporal-polyfill.js:2876 | a concrete pair for which the borrowed day makes the sum miss: from noon of 30 January 2019 to midnight of 28 February 2019, by month, the only difference is one month and twelve hours, and adding it back misses the end |
| Rounding.RoundNumberToIncrement | packages/core/core/src/temporal-polyfill/temporal-polyfill.js:3391-3429 | all nine modes computed from the truncated quotient agree with rounding defined from the floored one, for negative numbers too |
| Rounding.RoundedIsNearest | packages/core/core/src/temporal-polyfill/temporal-polyfill.js:3391-3429 | the result is within one increment; under a half mode no multiple is nearer and the distance is at most half an increment; the directed modes give the nearest multiple on their side |
| Rounding.RoundedIdempotent | packages/core/core/src/temporal-polyfill/temporal-polyfill.js:3391-3429 | rounding twice is rounding once |
| Rounding.RoundedMonotone | packages/core/core/src/temporal-polyfill/temporal-polyfill.js:3391-3429 | rounding keeps the order |
| Rounding.RoundedMirror | packages/core/core/src/temporal-polyfill/temporal-polyfill.js:2961-2974 | rounding the negated number by the negated mode is the negated result |
| Rounding.RoundInstant | packages/core/core/src/temporal-polyfill/temporal-polyfill.js:3430-3436 | with an increment that divides the day, the result is the midnight before the instant plus its rounded time of day; it is the rounded instant by the mode that ignores signs (truncation is flooring before 1970 too) if and only if it is not a tie broken to even from an odd number of increments |
| Rounding.RoundInstantMissesTie | packages/core/core/src/temporal-polyfill/temporal-polyfill.js:3430-3436 | a concrete tie: noon of day 1, rounded to the even day, becomes the start of day 1, while the whole instant rounds to the start of day 2 |
| Rounding.RoundedShift | packages/core/core/src/temporal-polyfill/temporal-polyfill.js:3430-3436 | rounding commutes with moving the origin by whole increments, except exactly for ties to even with an odd move |
| Rounding.BelowNextUnit | packages/core/core/src/temporal-polyfill/temporal-polyfill.js:3463-3485 | the fall-through switch adds up the part of the time below the next larger unit |
| Rounding.RoundTime | packages/core/core/src/temporal-polyfill/temporal-polyfill.js:3463-3510 | the part below the next larger unit is rounded and the rest is kept; this is rounding the whole time of day for every mode, except exactly for ties to even after an odd number of increments |
| Rounding.RoundTimeMissesTie | packages/core/core/src/temporal-polyfill/temporal-polyfill.js:3463-3510 | a concrete tie: 01:06, rounded to the even multiple of 12 minutes, becomes 01:00, while the whole time of day rounds to 01:12 |
| Weeks.DayOfWeekIsWeekday | packages/core/core/src/temporal-polyfill/temporal-polyfill.js:2347-2354 | the congruence computes the day of the week from the day number, for every valid date of every year |
| Weeks.WeekOfYear | packages/core/core/src/temporal-polyfill/temporal-polyfill.js:2360-2378 | the year is the one that contains the Thursday of the date's week, and the week is that Thursday's ordinal in it (section 3.2.2 of ISO 8601:2004) |
| Weeks.WeekNumber | packages/core/core/src/strftime.js:587-606 | the number of Sundays, or of Mondays, from 1 January up to the date (section 7.27.3.5 of ISO/IEC 9899:2011), also for the years 0 to 99, where `Date.UTC` computes in another century |
| ZoneTransitions.Bisect | packages/core/core/src/temporal-polyfill/temporal-polyfill.js:3821-3837 | whatever is returned is an instant with another offset than the one before it, also for negative midpoints; it fails only on a third offset; with changes at least 14 days apart it is the only change |
| ZoneTransitions.NextTransition | packages/core/core/src/temporal-polyfill/temporal-polyfill.js:2292-2308 | for changes at least 14 days apart: the least change after the start and the lower limit, or null exactly when there is none up to the last probe; with no hypothesis at all the result is still a change |
| ZoneTransitions.PreviousTransition | packages/core/core/src/temporal-polyfill/temporal-polyfill.js:2309-2336 | for changes at least 14 days apart: the greatest change that the scan covers, with the restarts from 2088 and from ten years ahead; with no hypothesis the result is still a change before the start |
| ZoneTransitions.PreviousDetermined | packages/core/core/src/temporal-polyfill/temporal-polyfill.js:2309-2336 | that description has one solution, so what is said of it is said of the result |
| ZoneTransitions.NearSearchMissesNothing | packages/core/core/src/temporal-polyfill/temporal-polyfill.js:2309-2336 | a search that starts within ten years from now finds the greatest change before its start, and null means none from a fortnight above the lower limit on |
| ZoneTransitions.SearchIsCompleteIfScansMeet | packages/core/core/src/temporal-polyfill/temporal-polyfill.js:2309-2336 | for every start and present time: each zone with changes at least 14 days apart gets the greatest change below the start, or null when there is none from a fortnight above the lower limit on, if and only if the first scan comes down to where the second one starts and the search is not moved to 2088 |
| ZoneTransitions.GapIsMissed | packages/core/core/src/temporal-polyfill/temporal-polyfill.js:2309-2336 | whenever the scans leave a gap, the zone whose only change lies in it is searched in vain: null is the one result |
| ZoneTransitions.ChangeBetweenTheScans | packages/core/core/src/temporal-polyfill/temporal-polyfill.js:2309-2336 | a concrete start from which a change is skipped: on day 0, searched from day 5000, a change on day 4000 |
| ZoneTransitions.ChangeIsFoundFromJustAfter | packages/core/core/src/temporal-polyfill/temporal-polyfill.js:2318-2324 | from just after a change the previous-transition search finds it if and only if it is not in the first fortnight above the lower limit |
| WallClock.LocalReading | packages/core/core/src/temporal-polyfill/temporal-polyfill.js:2247-2285 | the date-time shown at a place on the time line is the valid one at that place plus its offset; it is a RangeError exactly outside the range of the formatter, which ends a millisecond after the last instant |
| WallClock.GetPossibleInstantsFor | packages/core/core/src/temporal-polyfill/temporal-polyfill.js:8101-8132 | the result is the list of probed candidates that show the reading, or a RangeError exactly when the reading is not an instant, a probed candidate cannot be formatted, or one that shows the reading is not an instant |
| WallClock.PossibleAreSolutions | packages/core/core/src/temporal-polyfill/temporal-polyfill.js:8112-8128 | with offsets below a day and at most one change among the instants within a day either side, a list that is returned has only instants with the given reading, in increasing order; it misses no such instant if and only if no probe that was moved to the reading itself hid the offset of one, which is then the offset at the first or the last instant |
| WallClock.FirstInstantIsMissed | packages/core/core/src/temporal-polyfill/temporal-polyfill.js:8115-8118 | a concrete zone and reading for which the moved probe hides an instant in range |
| WallClock.Moved | packages/core/core/src/temporal-polyfill/temporal-polyfill.js:1957-1969 | moving a reading by some nanoseconds succeeds whenever the result is an instant, and lands exactly there |
| WallClock.GetInstantFor | packages/core/core/src/temporal-polyfill/temporal-polyfill.js:1923-1974 | one instant is returned as it is; of several the first, the last, or a RangeError as the mode says; of none, the choice in a gap |
| WallClock.GapShape | packages/core/core/src/temporal-polyfill/temporal-polyfill.js:1948-1953 | a reading that no instant has lies in a change to a larger offset: on the old offset it would be at or after the change, on the new one before it |
| WallClock.GapDisambiguation | packages/core/core/src/temporal-polyfill/temporal-polyfill.js:1948-1972 | in a gap "earlier" gives the reading moved back by the gap, strictly before the change, and "later" and "compatible" the reading moved on by it, at or after the change; near the ends of the range, the exact cases in which the moved reading or a probe leaves the range or a moved probe loses the answer |
| CalendarSearch.LaterDaysHaveLaterDates | packages/core/core/src/temporal-polyfill/temporal-polyfill.js:4942-5009 | dates of a regular calendar increase with the days |
| CalendarSearch.DateIsReached | packages/core/core/src/temporal-polyfill/temporal-polyfill.js:4942-5009 | every date of a regular calendar, in any year, is the date of some day |
| CalendarSearch.Answer | packages/core/core/src/temporal-polyfill/temporal-polyfill.js:4942-5009 | what the search has to find: under constrain the day of the nearest date of the same year, under reject the day of the given date or nothing |
| CalendarSearch.AnswerOfDate | packages/core/core/src/temporal-polyfill/temporal-polyfill.js:4801-4866 | the day found for the date of a day is that day |
| CalendarSearch.OneObjectCache.Get | packages/core/core/src/temporal-polyfill/temporal-polyfill.js:4743-4747 | returns the entry if there is one and counts calls and hits |
| CalendarSearch.OneObjectCache.Set | packages/core/core/src/temporal-polyfill/temporal-polyfill.js:4748-4752 | adds the entry and counts a miss |
| CalendarSearch.IsoToCalendarDate | packages/core/core/src/temporal-polyfill/temporal-polyfill.js:4801-4877 | the date of the day; a miss stores it and the way back under both kinds of overflow, and all entries of the cache keep agreeing with the uncached answers |
| CalendarSearch.SameMonthResult | packages/core/core/src/temporal-polyfill/temporal-polyfill.js:4978-4988 | from any day of the right month: the day asked for, or the last day of the month, or a RangeError under reject |
| CalendarSearch.HalvingSteps | packages/core/core/src/temporal-polyfill/temporal-polyfill.js:4996-5006 | the halving steps terminate with the right answer from any day, and their last resort is never reached |
| CalendarSearch.CalendarToIsoDate | packages/core/core/src/temporal-polyfill/temporal-polyfill.js:4942-5009 | for every date, even one that does not exist, the result is the specified answer, whether it comes from the cache or from the search, and the cache keeps agreeing with the uncached answers |
| Decimals.StripTrailingZeros | packages/core/core/src/temporal-polyfill/temporal-polyfill.js:2078-2079 | the loop leaves the text without its trailing zeros |
| Decimals.PaddingUndoesStripping | packages/core/core/src/temporal-polyfill/temporal-polyfill.js:2166 | padding to nine digits on the right restores what stripping took away |
| OffsetText.FormatTimeZoneOffsetString | packages/core/core/src/temporal-polyfill/temporal-polyfill.js:2192-2208 | the loop and the branches produce the specified text: sign, hours and minutes always, seconds only if they or the fraction are not zero, the fraction without trailing zeros |
| OffsetText.PrintThenParse | packages/core/core/src/temporal-polyfill/temporal-polyfill.js:2163-2167 | every offset of less than 24 hours is read back exactly from its printed form |
| OffsetText.ParsedIsBelowADay | packages/core/core/src/temporal-polyfill/temporal-polyfill.js:2168-2171 | every accepted text is an offset of less than a day, and its canonical form is read back as the same offset |
| DurationText.DividedThrice | packages/core/core/src/temporal-polyfill/temporal-polyfill.js:2074-2076 | the three divisions by 1000 give the magnitudes of the whole seconds and of the fraction, for negative totals too |
| DurationText.TemporalDurationToString | packages/core/core/src/temporal-polyfill/temporal-polyfill.js:2037-2082 | the divisions and the loop produce the specified text: the sign of the first field, a unit letter for every field that is not zero, seconds as one decimal number of the total below the minutes, and PT0S for nothing |
| DurationText.FractionIsConserved | packages/core/core/src/temporal-polyfill/temporal-polyfill.js:896-907 | a fraction of an hour, minute or second is spread over the smaller units without loss |
| DurationText.ParsedTotalIsExact | packages/core/core/src/temporal-polyfill/temporal-polyfill.js:876-907 | every accepted text is read as exactly the length that its hours, minutes and seconds say, with a fraction of up to nine digits on the smallest of them |
| DurationText.PrintThenParse | packages/core/core/src/temporal-polyfill/temporal-polyfill.js:876-919 | parsing a printed duration restores every field down to the minutes and the exact total of the fields below, with the sign |
| DurationText.ParseThenPrint | packages/core/core/src/temporal-polyfill/temporal-polyfill.js:876-919 | every accepted text gives a duration whose fields agree in sign, and which is read back the same after printing |
| Channels.WriteKernel.Writev | packages/core_unix/bigstring_unix/src/bigstring_unix_stubs.c:446 | the kernel gives the next answer of its script: it sends that many bytes of the two pieces, in order and no more than offered, or is interrupted, would block, or fails |
| KernelAnswers.OutputDetermined | packages/core_unix/bigstring_unix/src/bigstring_unix_stubs.c:444-498 | for given answers of the kernel the outcome of an output, its byte count and the number of answers used are determined: the first answer that ends it decides |
| KernelAnswers.WouldBlockFailsOnlyForOneByte | packages/core_unix/bigstring_unix/src/bigstring_unix_stubs.c:451-469 | a would-block makes the output fail only in answer to the offer of a single byte: the last one there is to offer, or the retry after an earlier would-block with nothing but interrupts and would-blocks since |
| Channels.WriteOut | packages/core_unix/bigstring_unix/src/bigstring_unix_stubs.c:444-498 | the outcome is the one that the kernel answers demand: the loop goes on after an interrupt, after a would-block with more than one byte offered, which it retries with one byte, and after too little; it succeeds at the answer that reaches the minimum and fails at an error or a would-block for one byte; it has sent exactly a prefix of the channel's bytes followed by the bigstring, and the offset has grown by its length |
| Channels.Append | packages/core_unix/bigstring_unix/src/bigstring_unix_stubs.c:425-430 | on the path with room in the buffer nothing is sent and the whole bigstring is buffered |
| Channels.Output | packages/core_unix/bigstring_unix/src/bigstring_unix_stubs.c:418-500 | data that fits in the buffer is always taken, without asking the kernel; otherwise, for every script of kernel answers, the outcome is the one they demand (`OutputOutcome`); bytes sent, then bytes left in the buffer, then the unsent rest of the bigstring are the old buffer followed by the bigstring; a success on the direct path returns at least the minimum with an empty buffer, a failure reports exactly the bigstring bytes sent, the offset grows by the bytes sent, and every return releases the lock |
| Channels.ReadKernel.Readv | packages/core_unix/bigstring_unix/src/bigstring_unix_stubs.c:358 | the kernel gives the next answer of its script: its bytes fill the two pieces in order and no further than there is room, or it is interrupted or fails |
| KernelAnswers.InputDetermined | packages/core_unix/bigstring_unix/src/bigstring_unix_stubs.c:344-415 | for given answers of the kernel the outcome of an input, the bytes read and the number of answers used are determined |
| KernelAnswers.FirstAnswerDecides | packages/core_unix/bigstring_unix/src/bigstring_unix_stubs.c:344-415 | when the bytes read ahead already reach the minimum, an input that asks the kernel is decided by the first answer that is not an interrupt, for every script: an error fails, no bytes are the end of the file, anything else is a success |
| KernelAnswers.EndOfFilePastTheMinimum | packages/core_unix/bigstring_unix/src/bigstring_unix_stubs.c:344-415 | a concrete input that has its minimum and still reports the end of the file: 3 bytes ahead, 2 wanted, room for 5, and a read of nothing |
| Channels.CopyAhead | packages/core_unix/bigstring_unix/src/bigstring_unix_stubs.c:329-342 | as many of the bytes read ahead as fit are delivered first, in order |
| Channels.ReadIn | packages/core_unix/bigstring_unix/src/bigstring_unix_stubs.c:344-415 | the outcome is the one that the kernel answers demand: the loop goes on after an interrupt and after too few bytes, fails at an error, and takes no bytes for the end of the file unless nothing was asked for; it delivers all it reads to the bigstring except for what the last read spills into the channel's buffer |
| Channels.InputFromKernel | packages/core_unix/bigstring_unix/src/bigstring_unix_stubs.c:344-415 | the same for the whole path past the buffer: outcome and bytes read as the answers demand, bytes delivered and kept in order, and the lock released unless the input is still waiting |
| Channels.Input | packages/core_unix/bigstring_unix/src/bigstring_unix_stubs.c:318-416 | the kernel is left alone exactly when some bytes are ahead and they fill the request, which then succeeds; otherwise, for every script of kernel answers, the outcome is the one they demand (`InputOutcome`); bytes delivered followed by the bytes left in the channel are the bytes read ahead followed by the bytes read; a success returns at least the minimum, the end of the file and an error report exactly the bytes delivered and leave the channel empty, and only a full bigstring leaves anything in the channel |
| FdTables.Child.SubprocessFailure | packages/spawn/src/spawn_stubs.c:183-212 | the description of a failure goes to whatever the descriptor refers to at that time |
| FdTables.Child.SafeDup | packages/spawn/src/spawn_stubs.c:216-227 | the copy is the lowest free descriptor from 3 on, the table is otherwise unchanged, the function calls itself at most once for each of 0, 1 and 2 that is free, and it fails only for a closed descriptor or a full table |
| FdTables.Child.CopyAway | packages/spawn/src/spawn_stubs.c:283-284 | three copies at free descriptors from 3 on, distinct from each other and from the failure pipe, or the reported failure; open originals with room for three copies never fail |
| FdTables.Child.CloseOriginals | packages/spawn/src/spawn_stubs.c:286-287 | the originals are closed, however they overlap, and even if one of them is the number of a copy |
| FdTables.Child.MoveIntoPlace | packages/spawn/src/spawn_stubs.c:289-294 | the copies end up at 0, 1 and 2 without the close-on-exec mark, and are closed; it fails exactly when an original was closed from the start |
| FdTables.Child.Redirect | packages/spawn/src/spawn_stubs.c:280-294 | for any three descriptors, closed, duplicated, permuted or overlapping 0 to 2 and the failure pipe, it succeeds exactly when they are open and there is room for three copies; then the table is exactly the intended one, and otherwise the failure has been reported, on the pipe if that is neither 0, 1 or 2 nor passed on |
| FdTables.Child.Subprocess | packages/spawn/src/spawn_stubs.c:246-300 | the program runs exactly when the directory can be reached, the standard descriptors are open, there is room and exec succeeds, with exactly the intended table; every failure is reported, on the pipe if that is neither 0, 1 or 2 nor passed on, and the failure of exec on whatever the redirection has left at its number; the directory may be any descriptor, but changing to the pipe itself fails |
| FdTables.ProgramTable | packages/spawn/src/spawn_stubs.c:289-298 | at exec descriptor i is the original file of the i-th standard descriptor, the others are the original unmarked ones minus the standard ones, and no entry is marked |
| FdTables.PipeSurvives | packages/spawn/src/spawn_stubs.c:293-299 | after redirection the number of the failure pipe still refers to the pipe if and only if it is not 0, 1 or 2, for a pipe that is not itself passed on |
| SpawnProtocol.StepKeeps | packages/spawn/src/spawn_stubs.c:449-561 | every step of every thread, child and program keeps the invariant of the protocol, whatever descriptors are open or passed |
| SpawnGuarantees.StepKeepsClean | packages/spawn/src/spawn_stubs.c:449-561 | every step but a fork that passes on a private pipe end keeps what is known of children, messages and pending results |
| SpawnProtocol.RunKeeps | packages/spawn/src/spawn_stubs.c:73-112 | so does every run of any length |
| SpawnProtocol.NoForkInTheWindow | packages/spawn/src/spawn_stubs.c:449-530 | in every interleaving, when a thread is about to fork, every pipe end that no caller has been given is marked close-on-exec |
| SpawnGuarantees.NoProgramHoldsAPipe | packages/spawn/src/spawn_stubs.c:449-530 | in every interleaving with only clean forks, no program started by exec, nor any program it forks, holds an end of an error pipe or of a pipe still in the making |
| SpawnGuarantees.ForkLeaksUnlessClean | packages/spawn/src/spawn_stubs.c:527-530 | after every run, a fork whose standard descriptors are open leads to a program that holds no such end if and only if none of them refers to one at the fork |
| SpawnGuarantees.ProperRunIsClean | packages/spawn/src/spawn_stubs.c:449-530 | if every call passes open descriptors of files that the caller was given, all forks of the run are clean |
| SpawnRuns.ClosedDescriptorLeaks | packages/spawn/src/spawn_stubs.c:449-530 | a concrete run that needs that hypothesis: a closed number passed as standard output becomes the write end of the error pipe, and the program holds an end of that pipe when it runs |
| SpawnProtocol.MutexIsReleased | packages/spawn/src/spawn_stubs.c:98-105 | the mutex is held by exactly the thread inside the section, so every modelled way out has released it and no two threads are inside at once |
| SpawnGuarantees.ReadTellsOfOwnChild | packages/spawn/src/spawn_stubs.c:539-561 | when the parent's read can return, a message means that its own child has failed and exited, and a length of zero that it has reached exec or was killed, if the write end of the pipe was none of 0, 1 and 2; otherwise it may also be about to call exec or have failed |
| SpawnGuarantees.CallerIsToldTheTruth | packages/spawn/src/spawn_stubs.c:530-561 | in every interleaving with only clean forks, what the caller is told is true of its own child: if it failed it has exited and left its message, the fork has failed if and only if there is no child, and if it was started it has reached exec or was killed, except that with a write end at 0, 1 or 2 it may also be about to call exec or have failed |
| SpawnGuarantees.FailureIsToldFromThree | packages/spawn/src/spawn_stubs.c:293-300 | a failure of exec reaches the parent's own pipe if and only if the write end is none of 0, 1 and 2 |
| SpawnGuarantees.WriteEndBelowThree | packages/spawn/src/spawn_stubs.c:76-79 | the write end is one of 0, 1 and 2 if and only if at most one of these is open when the pipe is made |
| SpawnRuns.FailedExecIsReadAsStarted | packages/spawn/src/spawn_stubs.c:216-300 | a concrete run with 0 and 1 closed in the parent and open standard descriptors: exec fails, the message is lost, and the caller is told that the program was started |
| SpawnGuarantees.OnlyChildrenBeforeExecDelayTheRead | packages/spawn/src/spawn_stubs.c:530-545 | a read that has to wait is held up only by a child that has not reached exec |
| SipHash.HashState.SipRound | packages/ppx_hash/runtime-lib/siphash/siphash.c:47-63 | the fourteen statements in place are the round |
| SipHash.RoundUndone | packages/ppx_hash/runtime-lib/siphash/siphash.c:47-63 | the round can be undone |
| SipHash.UnroundUndone | packages/ppx_hash/runtime-lib/siphash/siphash.c:47-63 | and undoing it can be redone, so it is a permutation of the states |
| SipHash.HashState.FoldUint64 | packages/ppx_hash/runtime-lib/siphash/siphash.c:86-94 | folding a word in place |
| SipHash.FoldIsPermutation | packages/ppx_hash/runtime-lib/siphash/siphash.c:86-94 | for a fixed word the fold is a permutation of the 256-bit states, with its inverse |
| SipHash.TailOf | packages/ppx_hash/runtime-lib/siphash/siphash.c:160-186 | the fall-through switch packs the bytes left over, under the low byte of the length |
| SipHash.HashState.FoldString | packages/ppx_hash/runtime-lib/siphash/siphash.c:145-188 | folding a string is folding its length, its blocks of eight bytes, and its tail, one after another |
| SipHash.FoldAllIsPermutation | packages/ppx_hash/runtime-lib/siphash/siphash.c:145-188 | for a fixed string the whole fold is a permutation of the states |
| SipHash.WordsArePrefixFree | packages/ppx_hash/runtime-lib/siphash/siphash.c:150-187 | the words of one string never begin with the words of another, so they also determine the string |
| SipHash.StreamsTell | packages/ppx_hash/runtime-lib/siphash/siphash.c:150-187 | the words of one list of strings begin with those of another only if the list does, so different lists give different streams |
| BlobHash.MixIsPermutation | packages/base/hash_types/src/internalhash_stubs.c:60-68 | for a fixed word the mixing step is a permutation of the 32-bit states, with its inverse, and for a fixed state it tells all words apart |
| BlobHash.FoldBlobLoop | packages/base/hash_types/src/internalhash_stubs.c:71-101 | the loop and the switch on the last bytes fold the words of the blob and then its length |
| BlobHash.BlobIsPermutation | packages/base/hash_types/src/internalhash_stubs.c:71-101 | for a fixed blob the fold is a permutation of the seeds, with its inverse |
| BlobHash.OneBlockTells | packages/base/hash_types/src/internalhash_stubs.c:71-101 | two blobs of the same length that differ only within one aligned block of four bytes, or within the tail, never fold to the same state |
| BlobHash.FinalMixIsPermutation | packages/base/hash_types/src/internalhash_stubs.c:45-50 | the finalisation is a permutation, with its inverse |
| BlobHash.HashValueCollisions | packages/base/hash_types/src/internalhash_stubs.c:52-57 | each 30-bit hash value belongs to exactly the four states that the mask identifies |
| Power.DigitStep | packages/base/src/int_math_stubs.c:63-69 | one base-4 digit of the exponent at a time |
| Power.WrapProduct | packages/base/src/int_math_stubs.c:64-67 | products may be wrapped to 64 bits at any stage |
| Power.IntPow | packages/base/src/int_math_stubs.c:56-72 | for every base and every exponent that is not negative, the loop returns the power modulo 2^64 |
| Power.IntPowStub | packages/base/src/int_math_stubs.c:74-76 | what OCaml code receives is the power modulo 2^63 |
| Power.Int64PowStub | packages/base/src/runtime.js:122-134 | for every base and every exponent the loop terminates with the power modulo 2^64, a negative exponent counting as 2^64 more because the shift is unsigned |

## Left out

- Babel helpers, slots, option parsing, receiver checks, getters and the prototype plumbing of the polyfill: no arithmetic.
- Infinite and inexact Numbers: the date code is modelled on integers, so the checks for infinity and the overflow results of duration balancing do not occur.
- `Intl.DateTimeFormat`, era names, month codes, leap-month rules and the per-calendar helpers: the calendar and the zones are functions; the adjustment of month codes before the calendar search and the consistency checks after it are not modelled, and dates are given by year, month and day.
- CalendarSearch.CalendarToIsoDate: the oracle has a date for every day, so the search never throws; the formatter behind it throws when the search steps to a day outside the range of time values.
- The regular structure of a calendar (consecutive days have consecutive dates) is a hypothesis of the calendar search, as is the spacing of changes in the transition theorems.
- The full ISO string grammar, and printing with a fixed precision or rounding: only the duration grammar, the offset grammar and precision auto are modelled.
- `RoundDuration`, relative-to branches, zoned date-times and days that are not 24 hours long: they call back into calendars and zones.
- TimeOfDay.NanosecondsToDays: relative to a zoned date-time the source counts days that the zone makes longer or shorter, which calls back into the zone; only days of 24 hours are modelled.
- TimeOfDay.BalanceDuration: neither the total relative to a zoned date-time nor the overflow results for totals that are not finite Numbers are modelled.
- DateTimes.DifferenceThenAdd: for year and month the way back is characterised, not unconditional, because it fails for clamped start days.
- CalendarSearch.OneObjectCache.Set: the copy constructor with its limit of 1000 entries, the object registry and the empty reporting hook of the cache are not modelled.
- FdTables.Child.SubprocessFailure: signal masks, process groups and the text of the failure are not modelled, nor is a write that itself fails.
- SpawnProtocol.MutexIsReleased: the exit for an unknown signal-mask command, which OCaml code cannot ask for, would leave the mutex held and is not modelled.
- SpawnGuarantees.NoProgramHoldsAPipe: promised, like what is said of results, for runs with only clean forks, which the source does not check. Other code of the parent may open, close and mark descriptors at any time, 0, 1 and 2 among them, but does not touch the pipe ends that no caller has been given, and leaves the standard descriptors of a call open until its fork.
- SpawnGuarantees.CallerIsToldTheTruth: a program does not write to the error pipe of another call, which it could only after a fork that is not clean; the child may close its working directory and other files at any time before the redirection, not just one.
- SpawnProtocol.NoForkInTheWindow: forks of the parent by other code than `spawn_unix`, which do not take the mutex, are not modelled; they could pass on a pipe that is not marked yet.
- The branch of `spawn_stubs.c` with `pipe2`, vfork's shared memory, signals, thread cancellation, the Windows branch, and the wait for a failed child.
- Blocking sections, garbage-collection roots, exceptions and error numbers of the stubs; pointer wrap-around of the minimum position in the input stub is modelled as exact subtraction.
- `bigstring_pread_stub`, which reads again at a constant offset, and the other one-call stubs of the bigstring library.
- The finalisation of SipHash, float normalisation, and the one-line fold functions of the internal hash.
- The 32-bit JavaScript power function, whose products are rounded as doubles before they are cut to 32 bits, and the bit-counting stubs.
- The rest of `strftime.js` and the C wrappers for time formatting.
