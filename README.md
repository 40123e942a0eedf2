# Cornerstone booking helpers, modelled in Dafny

Cornerstone is a small FastAPI service that sits between a voice agent and
the ServiceTitan scheduling API. This project models three parts of it and
proves properties about them:

- **The interval generator** `generate_intervals(start_time, end_time)`
  (`utils.py:73-88`; `Untitled-1.py:93-109` is the same code, and one
  model stands for both). It reads two
  `"%Y-%m-%d %H:%M"` timestamps with `strptime` and walks from the start in
  15-minute steps. It emits `{starttime, endtime}` pairs written back with
  `strftime` until the next step would pass the end. An unparsable timestamp
  becomes an HTTP 400.
- **The available-slots route** `get_available_slots` (`Untitled-1.py`).
  It builds a four-hour window from the start time and generates its
  intervals. It then sends the vendor's capacity endpoint one query for the
  whole window and returns a copy of every slot the vendor marks available.
- **The booking route** `booking_request` and its validators (`main.py`).
  Three validators cover the job type, the work area (the address's city
  and zip against the business units) and the bookings export. Each one
  re-raises every failure as a 500. The route runs them in a fixed order
  and answers with the first failure.

Modules:

| file | module | what it holds |
|---|---|---|
| `http.dfy` | `Http` | exceptions; `Result`; Python's `str(e)`; the 500 re-raise; how an escaping exception reaches the client |
| `calendar.dfy` | `Calendar` | Python `datetime` at minute precision; instants as minutes since 0001-01-01 00:00 |
| `timestamp.dfy` | `Timestamp` | `strptime`/`strftime` with `"%Y-%m-%d %H:%M"` |
| `intervals.dfy` | `Intervals` | `generate_intervals`, as a method with a loop |
| `slots.dfy` | `Slots` | `get_available_slots`, as methods with loops |
| `booking.dfy` | `Booking` | the three validators and `booking_request`, as functions |

Outside calls become inputs:
- The access-token fetch is an input `Result`: a token or the exception it
  raised.
- Each vendor GET is an input record: its status code and its decoded body.
- The capacity POST is an oracle function from the query sent to the
  response.
- `datetime.fromisoformat` is an oracle from text to an instant or the
  exception it raises.

`Slots.GetAvailableSlots` also returns the queries it sent, and
`Booking.BookingRequest` the checks it ran. This lets the contracts state
which calls happen.

Python behaviour that the model writes out:
- `strptime` is lenient. `%m`, `%d`, `%H` and `%M` accept one digit, `%d`
  also accepts a space and one digit, and the format's space matches any
  run of whitespace. `strftime` always zero-pads, so reformatting a parsed
  timestamp does not always give back the text that was read.
- `datetime + timedelta` past 9999-12-31 raises `OverflowError`. That is
  not a `ValueError`, so it escapes the 400 handler of
  `generate_intervals`.
- `str()` of an `HTTPException` is `"<status>: <detail>"`. So a validator
  failure reaches the client wrapped twice, for example
  `"500: 404: Error fetching job types"`.

## Model

| member | source | states |
|---|---|---|
| Http.Str | main.py:263-264 | `str()` of an HTTPException is its status code, ": ", then its detail unchanged |
| Http.Reraise500 | main.py:262-264 | the `except Exception` clause gives status 500 and the text of `str(e)`; the original status survives only inside the detail |
| Http.Respond | Untitled-1.py:59-62 | an HTTPException reaches the client with its own status; its detail goes with it unless the status may not carry a body (below 200, 204, 205, 304), in which case the body is empty; any other escaping exception becomes a bare 500 |
| Http.NatToStringRoundTrip | Untitled-1.py:61 | the decimal digits written for a status code read back as that number |
| Calendar.DayNumber | utils.py:75-76 | a valid date falls on a day between 0001-01-01 and 9999-12-31 |
| Calendar.ToMinutes | utils.py:75-76 | every valid date and time is an instant from 0 to the last minute of 9999 |
| Calendar.FromMinutesSpec | utils.py:79 | every instant in range is a valid date and time whose minute number is that instant |
| Calendar.FromToMinutes | utils.py:79 | converting a date and time to minutes and back gives it unchanged |
| Calendar.ToMinutesInjective | utils.py:78-80 | distinct dates and times are distinct instants, so equal instants mean equal datetimes |
| Calendar.ToMinutesOrder | utils.py:78-80 | one instant is smaller than another if and only if its (year, month, day, hour, minute) comes first lexicographically, the order in which Python compares datetimes; so `current < e` and `next > e` on instants are the loop's datetime comparisons |
| Calendar.YearOfSpec | utils.py:79 | counting days off year by year lands inside the year that holds the day |
| Calendar.MonthOfSpec | utils.py:79 | the month found for a day of the year is the one that holds it |
| Calendar.MonthsMakeYear | utils.py:79 | the twelve month lengths add up to the year's length, leap years included |
| Calendar.DaysBeforeYearStep | utils.py:79 | the day count before a year grows by that year's length |
| Timestamp.Parse | utils.py:75 | whatever strptime accepts is a valid date and time |
| Timestamp.ParseMinutes | utils.py:75-76 | an accepted timestamp names an instant in the datetime range |
| Timestamp.Format | utils.py:83 | strftime writes exactly 16 characters |
| Timestamp.ParseFormat | utils.py:83 | strptime reads back every timestamp strftime writes |
| Timestamp.ParseFormatMinutes | utils.py:83 | an instant written by strftime parses back to the same instant |
| Timestamp.FormatMinutesInjective | utils.py:83 | two instants get the same timestamp text if and only if they are the same instant |
| Timestamp.FormatParsed | utils.py:75-83 | reformatting a parsed timestamp gives the zero-padded form of the same instant |
| Timestamp.ParseAcceptsLooseForm | utils.py:75 | strptime also accepts one-digit month, day, hour and minute and any whitespace run between date and time |
| Timestamp.ReformatDiffers | utils.py:83 | for such an unpadded timestamp, the text strftime writes back differs from the text read |
| Timestamp.Digits | utils.py:75 | the digit run read for a field is all digits and stops at the first non-digit |
| Timestamp.Spaces | utils.py:75 | the whitespace run read for the format's space is all whitespace and stops at the first non-space |
| Intervals.GenerateIntervals | utils.py:73-88 | an unparsable timestamp raises the 400 "Invalid date format"; otherwise the result is the run of 15-minute intervals from start to end, or OverflowError when the tail passes 9999-12-31 23:59 |
| Intervals.Run | utils.py:78-85 | the run has one interval per whole 15-minute step between start and end |
| Intervals.RunLength | utils.py:78-81 | none when the end is not after the start; otherwise floor((end - start) / 15), the uncovered tail shorter than a step |
| Intervals.RunAt | utils.py:79-85 | the k-th interval runs from start + 15k to start + 15k + 15 and lies between start and end |
| Intervals.RunContiguous | utils.py:85 | each interval ends exactly where the next one starts |
| Intervals.RunStartsAtStart | utils.py:83 | the first interval starts at the requested instant, and its text is the requested text when that was already zero-padded |
| Intervals.RunEndsAtEnd | utils.py:80-81 | the last interval ends at the requested end if and only if the span is a whole number of steps |
| Intervals.OverflowOnlyAtTheEndOfTime | utils.py:79 | overflow needs an end within 15 minutes of 9999-12-31 23:59 |
| Intervals.CountIs | utils.py:78-81 | the step count is the unique n with n steps fitting and n + 1 not fitting |
| Intervals.RunCons | utils.py:82-85 | a run with room for a step is that step's interval followed by the run from the next instant |
| Intervals.RunShift | utils.py:85 | the k-th interval of a run is the first interval of the run from start + 15k |
| Intervals.RunStep | utils.py:82-85 | one loop turn moves one interval from the part still to come to the part produced |
| Intervals.RunFinished | utils.py:78-86 | when the loop stops without overflow, it has produced the whole run and the tail does not overflow |
| Intervals.OverflowAt | utils.py:79 | a step passing the last minute before the end is reached means the tail overflows |
| Slots.GetAvailableSlots | Untitled-1.py:2-66 | start unparsable: strptime's error, no query; window past 9999: OverflowError; failed token fetch: its exception; otherwise exactly one query, for the whole four-hour window, and the result the vendor's answer determines |
| Slots.QueryIntervals | Untitled-1.py:21-63 | the loop sends the whole-window query once and leaves after the first turn; with no interval it sends nothing and returns no slots |
| Slots.CollectAvailable | Untitled-1.py:37-54 | the inner loop returns the available vendor slots, copied, in the vendor's order |
| Slots.WindowEnd | Untitled-1.py:6-7 | the window's end text parses back to the start plus 240 minutes |
| Slots.WindowIntervals | Untitled-1.py:10 | a four-hour window has sixteen 15-minute intervals and never overflows, so the query is always sent |
| Slots.WindowQuery | Untitled-1.py:22-30 | the query asks for the whole window, not for the interval of the turn |
| Slots.Copy | Untitled-1.py:48-53 | a returned slot carries the vendor slot's start, end, start UTC and end UTC |
| Slots.UpstreamFailure | Untitled-1.py:58-62 | a non-200 capacity response raises an HTTPException with the vendor's status code |
| Slots.KeepAvailableMembers | Untitled-1.py:37-54 | a slot is returned if and only if it is the copy of some vendor slot marked available |
| Slots.KeepAvailableAppend | Untitled-1.py:37-54 | filtering keeps the vendor's order: it distributes over concatenation |
| Slots.KeepAvailableLength | Untitled-1.py:37-54 | never more slots than the vendor sent, and a copy of every one when all are available |
| Slots.Answer | Untitled-1.py:33-62 | a non-200 raises the upstream failure; a 200 without an availabilities list raises the TypeError of `len(None)`; a result is only ever the filtered list of a 200 |
| Slots.AnswerCases | Untitled-1.py:33-62 | slots come back if and only if the vendor answers 200 with an availabilities list; a non-200 reaches the client with the vendor's status, and with the failure message only when that status may carry a body; a missing list is a bare 500 |
| Booking.ValidateJobType | main.py:239-264 | every failure of the job-type validator is raised as status 500 |
| Booking.JobTypeDuration | main.py:254-256 | a duration d comes back if and only if token and GET succeed and the record has the requested id and duration d |
| Booking.JobTypeOtherId | main.py:254-258 | a record for another id gives None, whatever its duration |
| Booking.JobTypeStatusLost | main.py:259-264 | an upstream non-200 becomes a 500 whose detail starts with the upstream status |
| Booking.Split | main.py:282 | `split(", ")` always gives at least one piece |
| Booking.SplitJoin | main.py:282 | joining the pieces with ", " gives the address back |
| Booking.SplitPiecesSepFree | main.py:282 | no piece contains ", " |
| Booking.JoinSplit | main.py:282 | joining pieces that contain no ", " and splitting the result gives the same pieces back |
| Booking.SplitSepFree | main.py:282 | a text that contains no ", " splits into itself alone |
| Booking.SplitAfterPiece | main.py:282 | a piece that contains no ", ", followed by ", ", splits off first |
| Booking.ValidateWorkArea | main.py:266-292 | every failure of the work-area validator is raised as status 500 |
| Booking.MatchUnits | main.py:281-286 | the search fails only with IndexError; an empty unit list answers False; True only when the address has three pieces and some unit serves its city and zip |
| Booking.MatchUnitsFull | main.py:281-286 | with three or more pieces the search never fails, and it answers True if and only if some unit's city and zip equal pieces 1 and 2 |
| Booking.MatchUnitsTwoPieces | main.py:282 | with two pieces the search raises IndexError if and only if some unit's city equals piece 1, and otherwise answers False |
| Booking.WorkAreaServed | main.py:281-286 | for "street, city, zip" the validator answers True if and only if token and GET succeed and some unit has that city and zip |
| Booking.WorkAreaNoUnits | main.py:281-286 | an empty unit list answers False for any address, even one that cannot be split |
| Booking.WorkAreaShortAddress | main.py:282 | an address with fewer than two pieces fails with a 500 "list index out of range" once there is a unit |
| Booking.WorkAreaTwoPieces | main.py:282-292 | a two-piece address fails if and only if some unit's city matches piece 1, and is never accepted |
| Booking.ValidateAvailableSlots | main.py:326-348 | every failure of the bookings validator is raised as status 500 |
| Booking.SlotsNeverFalse | main.py:338-342 | the bookings check never answers False; it answers True if and only if token and GET succeed |
| Booking.ReplaceZ | main.py:376 | no "Z" remains after the replacement, and a time without "Z" is unchanged |
| Booking.ReplaceZChar | main.py:376 | a "Z" becomes "+00:00" and any other character stays |
| Booking.ReplaceZAppend | main.py:376 | replacing in a concatenation concatenates the replacements, so with ReplaceZChar each character is replaced on its own |
| Booking.BookingBody | main.py:360-389 | the job-type check always runs first and at most three checks run; a reply is one of the four the route writes; "validated" only after all three checks |
| Booking.BookingRequest | main.py:357-393 | every error reaching the client is a 500; the job-type check always runs first, and at most three checks run |
| Booking.BookingOrder | main.py:365-373 | a job-type failure or None stops after that check; a work-area failure or False stops after two; each early exit gives its own reply |
| Booking.BookingWindow | main.py:376-377 | the slot check asks about the requested instant up to that instant plus the duration in seconds |
| Booking.NoSlotsUnreachable | main.py:384-386 | "No available slots for the requested time" is never the reply |
| Booking.ZeroDurationAccepted | main.py:366 | a duration of 0 is accepted, and the booking is validated over an empty window |
| Booking.BookingValidated | main.py:365-389 | the booking is validated if and only if the job type has a duration, the area is served, the time parses, the window stays in range and the bookings fetch succeeds |
| Booking.IsoFailurePassesThrough | main.py:376-393 | a `fromisoformat` failure after both checks passed reaches the client as a 500 whose detail is that exception's own message |
| Booking.JobTypeFailureWrappedTwice | main.py:391-393 | an upstream job-type failure reaches the client as 500 with detail "500: <status>: Error fetching job types" |
| Booking.Rewrapped500 | main.py:262-264 | re-raising an exception that is already a 500 keeps status 500 and prefixes its detail with "500: " |

## Left out

- Network I/O is not modelled. The HTTP calls, the token fetch `get_access_token` (main.py:219-237) and the JSON decoding of each body are inputs: a `Result` for the token, a status, and a decoded body.
- JSON of unexpected shape is not modelled. The KeyError of a missing `data`, `address`, `city`, `zip`, `start`, `end`, `startUtc`, `endUtc` or `isAvailable` member, a body that is not an object, and a non-integer `id` or `duration` are outside the model. A missing or null `id`, `duration` or `availabilities` is modelled as None.
- Slots.VendorSlot.isAvailable is a boolean: Python's truthiness of other JSON values is not modelled.
- `print`, `utils.log_response` and the logging they do are left out: they do not change any result, apart from the `len()` inside the print at Untitled-1.py:36, which the model keeps as NoLengthError.
- Timestamp.IsDigit accepts ASCII digits only. The other Unicode decimal digits, which Python's `\d` also matches, are not modelled. Whitespace follows Python's `\s` in full, Unicode included.
- Http.Str gives strptime's ValueError an empty placeholder text. That exception only ever escapes as a bare 500, so its message never reaches a client.
- Timestamp.Format writes the year with four digits. The C library's `%Y` writes years below 1000 without padding, and those years are not distinguished. For those years strptime's four-digit `%Y` would reject the text strftime writes, so Timestamp.ParseFormat and Timestamp.ParseFormatMinutes do not hold of the real program there. In `get_available_slots` a start such as "0999-01-01 00:00" gives the end text "999-01-01 04:00", and `generate_intervals` then raises its 400 instead of sending the query: Slots.WindowIntervals, the one-query clause of Slots.GetAvailableSlots and the interval generation it relies on hold only when the window ends in year 1000 or later.
- Booking.BookingRequest takes `datetime.fromisoformat` as an oracle from text to an instant in microseconds, local to the text's own offset. ISO-8601 parsing and `isoformat()` output are not modelled. Booking.Check records instants, not the text sent in the bookings URL.
- Booking.BookingRequest: a `fromisoformat` failure passes its own exception through, so its message is whatever the oracle raises; which texts fail and with which message is not modelled. Every overflow of the end time is `OverflowError("date value out of range")`, including the different message `timedelta` gives for a duration beyond 999999999 days.
- Booking.BookingBody: the technician-availability check is not modelled. It is commented out in the source (main.py:294-324 and 378-381), as is the older copy of the module in main.py:1-195.
- Pydantic validation of request bodies and FastAPI routing are not modelled. The models take the already-validated fields.
- Concurrency is not modelled. Each route is a single sequential evaluation, and the `await`s are ordinary calls.
