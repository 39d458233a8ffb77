# ZwiftPower rider import, modelled in Dafny

This project models the decision logic of the `zp` package of a ZwiftPower club
dashboard. After a rider's event history has been fetched, `ImportRider` reduces it
to one `Rider` summary in a single pass. The summary holds:

- ride and race counts over the last 365, 90 and 30 days;
- running maxima of the FTP ratio (`wkg_ftp`) over the last 90, 60 and 30 days;
- the latest event, and the latest race together with its ratios.

Around that loop the model also covers three smaller pieces:

- the tolerant `event_date` decoder `EventDateType.UnmarshalJSON`;
- the per-event normalisation: the date, the "RACE" flag, and the two ratios, which arrive as JSON lists of numbers or text;
- `Rider.MonthsAgo`, which turns the latest event date into a phrase.

Files:

- `wrappers.dfy`: `Option` and `Result`.
- `dates.dfy`: instants as Unix seconds, Go's zero time, the int64 range as the subset type `Int64`, `time.Unix` with its int64 wrap-around, and the truncated "days ago" measure with its window lemmas.
- `events.dfy`: JSON values, `EventDateType` as a class with an in-place decoder, the substring race test, and `Normalize`, which turns one raw event into a normalised one or a reason to abort.
- `aggregate.dfy`: the `Rider` record, and one reference definition per field (`Count`, `MaxFtp`, `Latest`). `Summarize` and `Import` put these together. The loop method `ImportRider` is proved equal to `Import`. Its 90/60/30-day block and its "latest" block are the methods `ObserveRecent` and `ObserveLatest`, each proved against the reference definitions. Lemmas state what the snapshot means.
- `recency.dfy`: `MonthsAgo`, a decimal printer with its round trip, and the finding below.

Some inputs of the Go code become parameters:

- The clock becomes one fixed `now`, in Unix seconds.
- `strconv.ParseFloat` becomes `parse: string -> Option<real>`.
- The calendar months that `MonthsAgo` reads become two month numbers.

A panic or `log.Fatal` while reading an event's ratios ends the process in Go. Here it is `Failure(Abort(index, reason))`, naming the first such event; `wkg_ftp` is read before `avg_wkg`.

## Model

| member | source | states |
|---|---|---|
| Events.EventDateType.UnmarshalJSON | zp/zp.go:56-64 | never returns an error; an integer literal that fits in int64 is stored as it is, anything else (empty string, fraction, null, out of range) stores 0 |
| Events.DecodeInt64 | zp/zp.go:57-62 | `json.Unmarshal` into an int64 yields a value only for an integer literal in range, and then that integer; for anything else (including `null`) the target keeps its zero |
| Events.Normalize | zp/zp.go:122-150 | succeeds exactly when both ratios can be read; then the date is `time.Unix` of the decoded seconds, and title, race flag and both ratios come from the raw event; otherwise the `wkg_ftp` error wins over the `avg_wkg` one |
| Events.WkgFtpOf | zp/zp.go:138-145 | `wkg_ftp` is read exactly when it is a nonempty list whose first element is a number, or text that parses; the value is that number (an integer literal as its real value) or the parsed text; every failure names `wkg_ftp` |
| Events.AvgWkgOf | zp/zp.go:147-150 | `avg_wkg` is read exactly when it is a nonempty list whose first element is text that parses, and then is the parsed value; every failure names `avg_wkg` |
| Events.Contains | zp/zp.go:126 | `strings.Contains` as a left-to-right scan; a match needs the pattern to fit in the text |
| Events.ContainsIff | zp/zp.go:126 | the left-to-right substring scan succeeds exactly when an occurrence exists |
| Events.OccursShift | zp/zp.go:126 | occurrences past the first position are the tail's occurrences, shifted by one |
| Events.RaceFlag | zp/zp.go:126 | the race flag `IsRace` of a normalised event holds exactly when "RACE" occurs in its type label |
| Events.TextAndNumberAgree | zp/zp.go:138-145 | a `wkg_ftp` given as text reads the same as the number it parses to |
| Events.AvgWkgRejectsNumbers | zp/zp.go:147-150 | a numeric `avg_wkg` aborts the import |
| Events.OnlyFirstElementRead | zp/zp.go:138-147 | only the first element of each ratio list is read |
| Dates.DaysAgo | zp/zp.go:124 | the elapsed whole days, truncated toward zero, bracketed by the elapsed seconds; negative one or more days into the future |
| Dates.UnixTime | zp/zp.go:123 | `time.Unix(secs, 0)` is the instant `secs` itself, except that above int64 max + ZeroTime the seconds since year 1 wrap around 2^64 and the instant falls before year 1 |
| Dates.WrappedDateInNoWindow | zp/zp.go:123-128 | a wrapped `event_date` is more than a year old for any clock reading after year 1, so no window up to 365 days admits it |
| Dates.WithinDays | zp/zp.go:128 | `daysAgo <= n` (the window test `Aggregate.InWindow`) holds exactly when the event is less than n + 1 whole days old |
| Dates.WindowBoundary | zp/zp.go:128-171 | an event exactly n days old is in the n-day window, and one n + 1 days old is not |
| Dates.FutureInEveryWindow | zp/zp.go:124-171 | an event after `now` is in every window, and a full day or more ahead it is a negative number of days old |
| Aggregate.ImportRider | zp/zp.go:114-196 | the loop returns `Import`: the rider with only its id set when there are no events, the first abort when an event's ratios are unreadable, and otherwise the snapshot of all normalised events |
| Aggregate.ObserveRecent | zp/zp.go:153-179 | after one more event, the 90- and 30-day race counts and the 90-, 60- and 30-day ftp maxima equal their reference definitions over the extended list |
| Aggregate.ObserveLatest | zp/zp.go:181-191 | after one more event, the latest event's date and title, and the latest race's date, title and both ratios, equal their reference definitions over the extended list |
| Aggregate.Count | zp/zp.go:128-133 | a counter never exceeds the number of events |
| Aggregate.MaxFtp | zp/zp.go:135-179 | the running `wkg_ftp` maximum of a window, starting from 0, is never negative; `MaxFtpIsMaximum` states what it is |
| Aggregate.Summarize | zp/zp.go:122-195 | defines the snapshot field by field from `Count`, `MaxFtp` and `LatestOf`; `SnapshotInvariants`, `LatestEventOfSnapshot` and `LatestRaceOfSnapshot` state what it means |
| Aggregate.NormalizeAll | zp/zp.go:122-150 | defines normalisation of the whole list, stopping at the first event that cannot be read; `NormalizeAllSpec` states what it means |
| Aggregate.Import | zp/zp.go:114-196 | defines the import's result as the snapshot of the normalised events, or the first abort; `ImportAborts` and `ImportNoEvents` state what it means |
| Aggregate.EmptyRider | zp/zp.go:114-118 | defines the zero `Rider` with only its id set; `EmptySnapshot` states that no events give it |
| Aggregate.CountSnoc | zp/zp.go:128-133 | one more event adds one to a counter exactly when it is in the window (and a race, for race counters) |
| Aggregate.MaxFtpSnoc | zp/zp.go:153-179 | one more event replaces a running maximum exactly when it is in the window and strictly greater |
| Aggregate.LatestSnoc | zp/zp.go:181-191 | one more event becomes the latest exactly when it is eligible and strictly later |
| Aggregate.Latest | zp/zp.go:181-191 | the chosen index points at an eligible event |
| Aggregate.NormalizeStep | zp/zp.go:138-150 | normalising one more event extends the list, or reports that event as the abort |
| Aggregate.AbortPropagates | zp/zp.go:143 | an abort within the first n events is the abort of the whole import |
| Aggregate.NormalizeAllSpec | zp/zp.go:122-150 | normalisation succeeds exactly when every event normalises, keeping order and length; otherwise it names the first failing event and its reason |
| Aggregate.MaxFtpIsMaximum | zp/zp.go:135-179 | each ftp maximum is at least 0 and bounds every in-window `wkg_ftp`; it equals 0 or the `wkg_ftp` of an in-window event |
| Aggregate.LatestIsFirstLatest | zp/zp.go:181-191 | an event is `Eligible` when it is strictly `After` the zero time (and a race, for the latest race); no latest exactly when no event is eligible; otherwise the latest has the greatest date and comes first among events with that date |
| Aggregate.CountMonotone | zp/zp.go:128-174 | a smaller window, or races only, never counts more |
| Aggregate.MaxFtpMonotone | zp/zp.go:153-179 | a smaller window's maximum is never greater |
| Aggregate.RacesOfSelects | zp/zp.go:130-132 | the race filter keeps every race and nothing else |
| Aggregate.RaceCountIsRideCountOfRaces | zp/zp.go:130-132 | a race counter counts what an all-event counter over the same window counts on the races alone |
| Aggregate.EmptySnapshot | zp/zp.go:114-118 | with no events every counter and ratio is 0, both dates are unset and the titles empty |
| Aggregate.SnapshotInvariants | zp/zp.go:122-195 | `races30 <= races90 <= races <= rides <= number of events`, `0 <= ftp30 <= ftp60 <= ftp90`, and the latest race is no later than the latest event |
| Aggregate.LatestEventOfSnapshot | zp/zp.go:181-184 | the latest event date is the greatest date over all events, of any age, and its title is that of the first event with that date; the date stays unset only when no event is dated after the zero time |
| Aggregate.LatestRaceOfSnapshot | zp/zp.go:186-191 | the same over races only; title and both ratios come from that one race, and with no race all keep their zero values |
| Aggregate.FirstSeenWinsTies | zp/zp.go:181 | of two events on the same date, the one that comes first names the latest event |
| Aggregate.FirstOfTwoIsLatest | zp/zp.go:181-184 | of two same-dated events, the first is the latest of the pair |
| Aggregate.CountAppend | zp/zp.go:128-133 | counting over a concatenation adds the counts of the two parts |
| Aggregate.CountPermutation | zp/zp.go:128-174 | counters depend only on the multiset of events |
| Aggregate.MaxFtpDominated | zp/zp.go:153-179 | a maximum over events that all occur in another list is at most that list's maximum |
| Aggregate.LatestDateDominated | zp/zp.go:181-191 | the same for latest dates |
| Aggregate.OrderIndependence | zp/zp.go:122-192 | reordering the events changes neither the counters, the maxima nor the two latest dates; order decides only which same-dated event supplies the latest event's title, and which same-dated race supplies the latest race's title and both ratios |
| Aggregate.ImportAborts | zp/zp.go:138-150 | the import aborts exactly when some event, however old, has an unreadable ratio, and then names the first one |
| Aggregate.ImportNoEvents | zp/zp.go:114-118 | no events give the rider with only its id set |
| Aggregate.WrappedDateIgnored | zp/zp.go:123-191 | an event whose `event_date` wraps in `time.Unix` is in no window and never becomes the latest event or race |
| Aggregate.ExampleAfterFirst | zp/zp.go:122-192 | worked example, first step: one race 40 days old |
| Aggregate.ExampleAfterSecond | zp/zp.go:122-192 | worked example, second step: a race 10 days old is added |
| Aggregate.ThreeEventExample | zp/zp.go:122-195 | worked example: two recent races and a ride 400 days old give 2 rides, 2 races, 1 race in 30 days, ftp maxima 1.10 / 1.10 / 1.05, and the 10-day-old race as both latest event and latest race |
| Aggregate.StepAll | zp/zp.go:128-191 | every field's reference definition after one more event, as the loop body updates it |
| Recency.Decimal | zp/zp.go:235 | `%d` of a count is a nonempty string of digits with no leading zero, and "0" for zero (with `DecimalRoundTrip` this fixes the string) |
| Recency.DecimalRoundTrip | zp/zp.go:235 | reading the printed digits back gives the count |
| Recency.MonthsAgo | zp/zp.go:215-237 | "No latest event" for the zero time; "Over a year ago" past 365 days; otherwise the month difference mod 12 as "This month", "Last month" or "k months ago" |
| Recency.MonthsAgoIsReadable | zp/zp.go:224-236 | within the year the phrase gives the month difference mod 12 back exactly |
| Recency.CountPhraseIsReadable | zp/zp.go:234-235 | a phrase "k months ago" reads back as k |
| Recency.ElevenMonthsOldReadsThisMonth | zp/zp.go:220-231 | as written, an event 335 days old in the same calendar month reads "This month", where the calendar difference reads "12 months ago" |
| Recency.MonthsAgoCalendar | zp/zp.go:215-237 | corrected phrase: the month count is the unwrapped calendar-month difference |
| Recency.MonthsAgoCalendarIsReadable | zp/zp.go:224-236 | within the year the corrected phrase gives the calendar-month difference back exactly, across years |
| Recency.CalendarAgreesBelowTwelveMonths | zp/zp.go:224-236 | the corrected and original phrases agree for events zero to eleven calendar months old |

## Left out

- Network I/O is not modelled: `NewClient`, `ImportZP`, `getJSON`, the profile-warming GET, and the JSON decoding of club and rider payloads (zp/zp.go:66-112, 199-212). The loop starts from the decoded event list.
- `log.Printf` output is not modelled. A `log.Fatal` or a panic ends the process in Go; here it is an `Abort` result for the whole rider.
- When the import aborts, the counters already updated for the failing event are discarded, as the process exit discards them.
- `Rider.Strings` (zp/zp.go:240-257) is not part of this model. It is formatting through `strconv.FormatFloat` and `time.Format`.
- The ratios are `real`, not IEEE float64. `strconv.ParseFloat` is the `parse` parameter, so NaN, infinities and rounding are not modelled.
- Elapsed time is exact integer seconds. Go divides `Hours()` in floating point and reads the clock to the nanosecond; rounding at a window's last nanosecond is not modelled.
- The clock is read once for each event in Go (zp/zp.go:124); here one fixed `now` serves the whole import. `MonthsAgo` reads it twice (zp/zp.go:220 and 224); the model takes `now` and `nowMonth` as separate inputs and does not relate them.
- `MonthsAgo` takes the calendar months of `now` and of the latest event as inputs; the Gregorian calendar is not modelled.
- Aggregate.ImportRider: the loop reads both ratios through `Normalize` after the 365-day counters, rather than `wkg_ftp` and `avg_wkg` in two separate steps. The result is the same, because an abort discards the rider.
- The start value of the two "latest" dates is Go's zero time (year 1), not an "absent" value below every date. An event dated before year 1 therefore never becomes the latest, as in Go.
- Go's `time.Duration` saturates at about 292 years, and `Sub` returns that bound for instants further apart. The model keeps the exact difference. This matters only for events more than 292 years from `now`, and such events fall on the same side of every window of at most 365 days either way.
- The Go loop also writes `EventDate` into its copy of each event; that copy is dropped after each iteration and has no counterpart here.

## Findings

| source | as written | input that shows it | evidently intended | confidence | as-written member | corrected member |
|---|---|---|---|---|---|---|
| zp/zp.go:220-231 | within 365 days, the month difference is taken mod 12, ignoring the year | latest event 2022-03-31 00:00 UTC, `now` 2023-03-01 00:00 UTC (335 days): reads "This month" | the calendar-month difference across years, here "12 months ago" | high, not executed | Recency.ElevenMonthsOldReadsThisMonth | Recency.MonthsAgoCalendar |
