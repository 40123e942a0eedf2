/**
  The booking route and the three validators it calls: the job type, the
  work area and the bookings export. Each validator fetches an access
  token, issues one GET and re-raises whatever goes wrong as a 500; the
  route runs them in a fixed order and stops at the first that fails.

  The token fetch and each GET are inputs (a Fetch: the token outcome, the
  status code and the decoded body); `datetime.fromisoformat` is an oracle
  from text to an instant or the ValueError it raises.
 */
module Booking {
  import opened Http
  import opened Calendar

  /** One validator's upstream exchange: the outcome of the token fetch,
      then the status code and decoded body of its GET. */
  datatype Fetch<T> = Fetch(token: Result<string>, status: int, body: T)

  /** The job-type record: its `id` and `duration` members, None when absent. */
  datatype JobType = JobType(id: Option<int>, duration: Option<int>)

  /** A business unit's `address.city` and `address.zip`. */
  datatype BusinessUnit = BusinessUnit(city: string, zip: string)

  /** The request body of the booking route. */
  datatype BookingData = BookingData(jobType: int, address: string, time: string)

  /** The JSON object the route returns: {"error": ...} or {"status": ...}. */
  datatype Reply = Error(error: string) | Status(status: string)

  /** The upstream checks the route runs, in order; the slot check carries
      the window it asks about. */
  datatype Check = JobTypeCheck | WorkAreaCheck | SlotsCheck(start: Instant, end: int)

  /** Microseconds since 0001-01-01T00:00, in the datetime's own (wall-clock)
      time: what `datetime` can represent. */
  const MicrosPerSecond := 1000000
  const MaxMicrosecond := DayCount * 86400 * 1000000 - 1
  type Instant = n: int | 0 <= n <= MaxMicrosecond

  /** Everything the route receives from outside: the three validators'
      exchanges and the ISO-8601 parser. */
  datatype Upstream = Upstream(
    jobTypes: Fetch<JobType>, businessUnits: Fetch<seq<BusinessUnit>>, bookings: Fetch<()>,
    fromIso: string -> Result<Instant>)

  /** The `except Exception as e: raise HTTPException(500, str(e))` around
      a validator's or the route's body. */
  function Guarded<T>(r: Result<T>): Result<T> {
    if r.Raise? then Raise(Reraise500(r.exception)) else r
  }

  // ----- validate_job_type ---------------------------------------------

  function JobTypeBody(jobTypeId: int, fetch: Fetch<JobType>): Result<Option<int>> {
    if fetch.token.Raise? then Raise(fetch.token.exception)
    else if fetch.status == 200 then
      Ok(if fetch.body.id == Some(jobTypeId) then fetch.body.duration else None)
    else Raise(HttpException(fetch.status, "Error fetching job types"))
  }

  /** validate_job_type(job_type_id): the duration in seconds, None when the
      record is for another id or has no duration. */
  function ValidateJobType(jobTypeId: int, fetch: Fetch<JobType>): (r: Result<Option<int>>)
    ensures r.Raise? ==> r.exception.HttpException? && r.exception.status == 500
  {
    Guarded(JobTypeBody(jobTypeId, fetch))
  }

  /** A duration comes back exactly when the token and the GET succeed and
      the record carries the requested id and a duration. */
  lemma JobTypeDuration(jobTypeId: int, fetch: Fetch<JobType>, d: int)
    ensures ValidateJobType(jobTypeId, fetch) == Ok(Some(d)) <==>
      fetch.token.Ok? && fetch.status == 200 && fetch.body.id == Some(jobTypeId) && fetch.body.duration == Some(d)
  {
  }

  /** A record for another id gives None, whatever its duration. */
  lemma JobTypeOtherId(jobTypeId: int, fetch: Fetch<JobType>)
    requires fetch.token.Ok? && fetch.status == 200 && fetch.body.id != Some(jobTypeId)
    ensures ValidateJobType(jobTypeId, fetch) == Ok(None)
  {
  }

  /** An upstream failure loses its status: it comes back as a 500 whose
      detail starts with the upstream status. */
  lemma JobTypeStatusLost(jobTypeId: int, fetch: Fetch<JobType>)
    requires fetch.token.Ok? && fetch.status != 200
    ensures ValidateJobType(jobTypeId, fetch) ==
      Raise(HttpException(500, IntToString(fetch.status) + ": Error fetching job types"))
  {
  }

  // ----- the address split ---------------------------------------------

  /** The separator the address is split on. */
  const Sep := ", "

  /** Python's s.split(", "): the pieces between the occurrences of the
      separator, found left to right without overlap. */
  function Split(s: string): (parts: seq<string>)
    ensures |parts| >= 1
    decreases |s|
  {
    if |s| < 2 then [s]
    else if s[0] == ',' && s[1] == ' ' then [""] + Split(s[2..])
    else
      var rest := Split(s[1..]);
      [[s[0]] + rest[0]] + rest[1..]
  }

  /** ", ".join(parts). */
  function Join(parts: seq<string>): string
    requires |parts| >= 1
    decreases |parts|
  {
    if |parts| == 1 then parts[0] else parts[0] + Sep + Join(parts[1..])
  }

  /** The separator does not occur in p. */
  predicate SepFree(p: string) {
    forall i :: 0 <= i < |p| - 1 ==> !(p[i] == ',' && p[i + 1] == ' ')
  }

  /** Splitting loses nothing: joining the pieces gives the text back. */
  lemma {:induction false} SplitJoin(s: string)
    ensures Join(Split(s)) == s
    decreases |s|
  {
    if |s| < 2 {
    } else if s[0] == ',' && s[1] == ' ' {
      SplitJoin(s[2..]);
      assert s == Sep + s[2..];
    } else {
      SplitJoin(s[1..]);
      JoinCons(s[0], Split(s[1..]));
      assert s == [s[0]] + s[1..];
    }
  }

  /** A character put in front of the first piece ends up in front of the
      joined text. */
  lemma JoinCons(c: char, parts: seq<string>)
    requires |parts| >= 1
    ensures Join([[c] + parts[0]] + parts[1..]) == [c] + Join(parts)
  {
    var joined := [[c] + parts[0]] + parts[1..];
    assert joined[0] == [c] + parts[0] && joined[1..] == parts[1..];
    if |parts| > 1 {
      PrependJoined(c, parts[0], Join(parts[1..]));
    }
  }

  lemma PrependJoined(c: char, a: string, t: string)
    ensures ([c] + a) + Sep + t == [c] + (a + Sep + t)
  {
  }

  /** No piece of a split holds the separator. */
  lemma {:induction false} SplitPiecesSepFree(s: string)
    ensures forall k :: 0 <= k < |Split(s)| ==> SepFree(Split(s)[k])
    decreases |s|
  {
    if |s| < 2 {
    } else if s[0] == ',' && s[1] == ' ' {
      SplitPiecesSepFree(s[2..]);
      assert Split(s) == [""] + Split(s[2..]);
    } else {
      SplitPiecesSepFree(s[1..]);
      var rest := Split(s[1..]);
      var first := [s[0]] + rest[0];
      assert Split(s) == [first] + rest[1..];
      assert SepFree(first) by {
        forall i | 0 <= i < |first| - 1
          ensures !(first[i] == ',' && first[i + 1] == ' ')
        {
          if i > 0 {
            assert first[i] == rest[0][i - 1] && first[i + 1] == rest[0][i];
          }
        }
      }
    }
  }

  /** A separator-free text is its own single piece. */
  lemma {:induction false} SplitSepFree(p: string)
    requires SepFree(p)
    ensures Split(p) == [p]
    decreases |p|
  {
    if |p| >= 2 {
      assert SepFree(p[1..]) by {
        forall i | 0 <= i < |p[1..]| - 1
          ensures !(p[1..][i] == ',' && p[1..][i + 1] == ' ')
        {
          assert p[1..][i] == p[i + 1] && p[1..][i + 1] == p[i + 2];
        }
      }
      SplitSepFree(p[1..]);
      assert [p[0]] + p[1..] == p;
    }
  }

  /** A separator-free piece followed by the separator splits off first. */
  lemma {:induction false} SplitAfterPiece(p: string, r: string)
    requires SepFree(p)
    ensures Split(p + Sep + r) == [p] + Split(r)
    decreases |p|
  {
    var s := p + Sep + r;
    if p == [] {
      assert s == Sep + r;
      assert s[2..] == r;
    } else {
      assert s[0] == p[0];
      assert s[1] == if |p| >= 2 then p[1] else ',';
      assert SepFree(p[1..]) by {
        forall i | 0 <= i < |p[1..]| - 1
          ensures !(p[1..][i] == ',' && p[1..][i + 1] == ' ')
        {
          assert p[1..][i] == p[i + 1] && p[1..][i + 1] == p[i + 2];
        }
      }
      assert s[1..] == p[1..] + Sep + r;
      SplitAfterPiece(p[1..], r);
      assert [p[0]] + p[1..] == p;
    }
  }

  /** Joining separator-free pieces and splitting the result gives the
      pieces back. */
  lemma {:induction false} JoinSplit(parts: seq<string>)
    requires |parts| >= 1
    requires forall k :: 0 <= k < |parts| ==> SepFree(parts[k])
    ensures Split(Join(parts)) == parts
    decreases |parts|
  {
    if |parts| == 1 {
      SplitSepFree(parts[0]);
    } else {
      JoinSplit(parts[1..]);
      SplitAfterPiece(parts[0], Join(parts[1..]));
      assert [parts[0]] + parts[1..] == parts;
    }
  }

  // ----- validate_work_area --------------------------------------------

  /** The search loop: the first unit whose city equals piece [1] and whose
      zip equals piece [2] of the address answers True; a missing piece
      raises IndexError when, and only when, the loop reaches it. */
  function MatchUnits(units: seq<BusinessUnit>, address: string): (r: Result<bool>)
    ensures r.Raise? ==> r.exception == IndexError
    ensures units == [] ==> r == Ok(false)
    ensures r == Ok(true) ==>
      |Split(address)| >= 3 && exists i :: 0 <= i < |units| && Serves(units[i], Split(address))
    decreases |units|
  {
    if units == [] then Ok(false)
    else
      var parts := Split(address);
      if |parts| < 2 then Raise(IndexError)
      else if units[0].city != parts[1] then MatchUnits(units[1..], address)
      else if |parts| < 3 then Raise(IndexError)
      else if units[0].zip == parts[2] then Ok(true)
      else MatchUnits(units[1..], address)
  }

  function WorkAreaBody(address: string, fetch: Fetch<seq<BusinessUnit>>): Result<bool> {
    if fetch.token.Raise? then Raise(fetch.token.exception)
    else if fetch.status == 200 then MatchUnits(fetch.body, address)
    else Raise(HttpException(fetch.status, "Error fetching business units"))
  }

  /** validate_work_area(client_address). */
  function ValidateWorkArea(address: string, fetch: Fetch<seq<BusinessUnit>>): (r: Result<bool>)
    ensures r.Raise? ==> r.exception.HttpException? && r.exception.status == 500
  {
    Guarded(WorkAreaBody(address, fetch))
  }

  /** Unit u serves the city and zip named by the address pieces. */
  predicate Serves(u: BusinessUnit, parts: seq<string>)
    requires |parts| >= 3
  {
    u.city == parts[1] && u.zip == parts[2]
  }

  /** With three or more pieces the search never raises, and it answers True
      exactly when some unit serves the address's city and zip. */
  lemma {:induction false} MatchUnitsFull(units: seq<BusinessUnit>, address: string)
    requires |Split(address)| >= 3
    ensures MatchUnits(units, address).Ok?
    ensures MatchUnits(units, address).value <==>
      exists i :: 0 <= i < |units| && Serves(units[i], Split(address))
    decreases |units|
  {
    if units != [] {
      MatchUnitsFull(units[1..], address);
      if exists i :: 0 <= i < |units[1..]| && Serves(units[1..][i], Split(address)) {
        var i :| 0 <= i < |units[1..]| && Serves(units[1..][i], Split(address));
        assert units[i + 1] == units[1..][i];
      }
      if exists i :: 0 <= i < |units| && Serves(units[i], Split(address)) {
        var i :| 0 <= i < |units| && Serves(units[i], Split(address));
        if i > 0 {
          assert units[1..][i - 1] == units[i];
        }
      }
    }
  }

  /** With exactly two pieces no unit can match; the search raises
      IndexError exactly when some unit's city equals piece [1]. */
  lemma {:induction false} MatchUnitsTwoPieces(units: seq<BusinessUnit>, address: string)
    requires |Split(address)| == 2
    ensures MatchUnits(units, address) ==
      if exists i :: 0 <= i < |units| && units[i].city == Split(address)[1]
      then Raise(IndexError) else Ok(false)
    decreases |units|
  {
    if units != [] {
      MatchUnitsTwoPieces(units[1..], address);
      if exists i :: 0 <= i < |units[1..]| && units[1..][i].city == Split(address)[1] {
        var i :| 0 <= i < |units[1..]| && units[1..][i].city == Split(address)[1];
        assert units[i + 1] == units[1..][i];
      }
      if exists i :: 0 <= i < |units| && units[i].city == Split(address)[1] {
        var i :| 0 <= i < |units| && units[i].city == Split(address)[1];
        if i > 0 {
          assert units[1..][i - 1] == units[i];
        }
      }
    }
  }

  /** The work area answers True exactly when the exchange succeeds and some
      unit serves the city and zip of a "street, city, zip" address. */
  lemma WorkAreaServed(street: string, city: string, zip: string, fetch: Fetch<seq<BusinessUnit>>)
    requires SepFree(street) && SepFree(city) && SepFree(zip)
    ensures ValidateWorkArea(street + Sep + city + Sep + zip, fetch) == Ok(true) <==>
      fetch.token.Ok? && fetch.status == 200 &&
      exists i :: 0 <= i < |fetch.body| && fetch.body[i].city == city && fetch.body[i].zip == zip
  {
    var address := street + Sep + city + Sep + zip;
    var parts := [street, city, zip];
    assert Join(parts) == address by {
      assert Join(parts[1..]) == city + Sep + zip by {
        assert parts[1..][1..] == [zip];
      }
    }
    JoinSplit(parts);
    MatchUnitsFull(fetch.body, address);
  }

  /** An empty unit list answers False without splitting the address, so
      even an address with no separator passes unnoticed. */
  lemma WorkAreaNoUnits(address: string, fetch: Fetch<seq<BusinessUnit>>)
    requires fetch.token.Ok? && fetch.status == 200 && fetch.body == []
    ensures ValidateWorkArea(address, fetch) == Ok(false)
  {
  }

  /** An address with fewer than two pieces fails as soon as there is a
      unit to compare against. */
  lemma WorkAreaShortAddress(address: string, fetch: Fetch<seq<BusinessUnit>>)
    requires fetch.token.Ok? && fetch.status == 200 && fetch.body != []
    requires |Split(address)| < 2
    ensures ValidateWorkArea(address, fetch) == Raise(HttpException(500, "list index out of range"))
  {
  }

  /** A two-piece address fails only when some unit's city matches, and is
      otherwise simply not served. */
  lemma WorkAreaTwoPieces(address: string, fetch: Fetch<seq<BusinessUnit>>)
    requires fetch.token.Ok? && fetch.status == 200 && |Split(address)| == 2
    ensures ValidateWorkArea(address, fetch).Raise? <==>
      exists i :: 0 <= i < |fetch.body| && fetch.body[i].city == Split(address)[1]
    ensures ValidateWorkArea(address, fetch) != Ok(true)
  {
    MatchUnitsTwoPieces(fetch.body, address);
  }

  // ----- validate_available_slots --------------------------------------

  function SlotsBody(fetch: Fetch<()>): Result<bool> {
    if fetch.token.Raise? then Raise(fetch.token.exception)
    else if fetch.status == 200 then Ok(true)
    else Raise(HttpException(fetch.status, "Error fetching bookings"))
  }

  /** validate_available_slots(start_date, end_date): the bookings export is
      fetched but not looked at. */
  function ValidateAvailableSlots(fetch: Fetch<()>): (r: Result<bool>)
    ensures r.Raise? ==> r.exception.HttpException? && r.exception.status == 500
  {
    Guarded(SlotsBody(fetch))
  }

  /** The check never answers False: it succeeds exactly when the exchange
      does. */
  lemma SlotsNeverFalse(fetch: Fetch<()>)
    ensures ValidateAvailableSlots(fetch) != Ok(false)
    ensures ValidateAvailableSlots(fetch) == Ok(true) <==> fetch.token.Ok? && fetch.status == 200
  {
  }

  // ----- booking_request -----------------------------------------------

  /** time.replace("Z", "+00:00"). */
  function ReplaceZ(s: string): (t: string)
    ensures forall i :: 0 <= i < |t| ==> t[i] != 'Z'
    ensures (forall i :: 0 <= i < |s| ==> s[i] != 'Z') ==> t == s
    decreases |s|
  {
    if s == [] then []
    else (if s[0] == 'Z' then "+00:00" else [s[0]]) + ReplaceZ(s[1..])
  }

  /** Each character is replaced on its own: a "Z" becomes "+00:00", any
      other character stays. */
  lemma ReplaceZChar(c: char)
    ensures ReplaceZ([c]) == if c == 'Z' then "+00:00" else [c]
  {
    assert [c][1..] == [];
  }

  /** The replacement works piece by piece: replacing in a concatenation is
      concatenating the replacements. */
  lemma {:induction false} ReplaceZAppend(a: string, b: string)
    ensures ReplaceZ(a + b) == ReplaceZ(a) + ReplaceZ(b)
    decreases |a|
  {
    if a != [] {
      assert (a + b)[0] == a[0] && (a + b)[1..] == a[1..] + b;
      ReplaceZAppend(a[1..], b);
    } else {
      assert a + b == b;
    }
  }

  /** The error replies, in the order the route can give them. */
  const InvalidJobType := Error("Invalid job type")
  const AreaNotServed := Error("Service not available in the given area")
  const NoSlots := Error("No available slots for the requested time")
  const Validated := Status("Booking request validated successfully")

  /** The route's try body: the outcome and the checks it ran. */
  function BookingBody(data: BookingData, up: Upstream): (o: (Result<Reply>, seq<Check>))
    ensures 1 <= |o.1| <= 3 && o.1[0] == JobTypeCheck
    ensures o.0.Ok? ==> o.0.value in {InvalidJobType, AreaNotServed, NoSlots, Validated}
    ensures o.0 == Ok(Validated) ==> |o.1| == 3
  {
    var duration := ValidateJobType(data.jobType, up.jobTypes);
    if duration.Raise? then (Raise(duration.exception), [JobTypeCheck])
    else if duration.value.None? then (Ok(InvalidJobType), [JobTypeCheck])
    else
      var area := ValidateWorkArea(data.address, up.businessUnits);
      if area.Raise? then (Raise(area.exception), [JobTypeCheck, WorkAreaCheck])
      else if !area.value then (Ok(AreaNotServed), [JobTypeCheck, WorkAreaCheck])
      else
        var iso := ReplaceZ(data.time);
        var start := up.fromIso(iso);
        if start.Raise? then (Raise(start.exception), [JobTypeCheck, WorkAreaCheck])
        else
          var end := start.value + duration.value.value * MicrosPerSecond;
          if end < 0 || end > MaxMicrosecond then (Raise(OverflowError), [JobTypeCheck, WorkAreaCheck])
          else
            var checks := [JobTypeCheck, WorkAreaCheck, SlotsCheck(start.value, end)];
            var slots := ValidateAvailableSlots(up.bookings);
            if slots.Raise? then (Raise(slots.exception), checks)
            else if !slots.value then (Ok(NoSlots), checks)
            else (Ok(Validated), checks)
  }

  /** booking_request(data): the reply, or the exception that reaches the
      client, and the upstream checks run on the way. */
  function BookingRequest(data: BookingData, up: Upstream): (outcome: (Result<Reply>, seq<Check>))
    ensures outcome.0.Raise? ==> outcome.0.exception.HttpException? && outcome.0.exception.status == 500
    ensures 1 <= |outcome.1| <= 3 && outcome.1[0] == JobTypeCheck
  {
    var (r, checks) := BookingBody(data, up);
    (Guarded(r), checks)
  }

  /** The first check that fails decides the reply, and no later check runs. */
  lemma BookingOrder(data: BookingData, up: Upstream)
    ensures !ValidateJobType(data.jobType, up.jobTypes).Ok? ||
            ValidateJobType(data.jobType, up.jobTypes).value.None? ==>
      BookingRequest(data, up).1 == [JobTypeCheck]
    ensures ValidateJobType(data.jobType, up.jobTypes) == Ok(None) ==>
      BookingRequest(data, up).0 == Ok(InvalidJobType)
    ensures ValidateJobType(data.jobType, up.jobTypes).Ok? &&
            ValidateJobType(data.jobType, up.jobTypes).value.Some? &&
            ValidateWorkArea(data.address, up.businessUnits) != Ok(true) ==>
      BookingRequest(data, up).1 == [JobTypeCheck, WorkAreaCheck]
    ensures ValidateJobType(data.jobType, up.jobTypes).Ok? &&
            ValidateJobType(data.jobType, up.jobTypes).value.Some? &&
            ValidateWorkArea(data.address, up.businessUnits) == Ok(false) ==>
      BookingRequest(data, up).0 == Ok(AreaNotServed)
  {
  }

  /** The slot check asks about the window from the requested time to that
      time plus the job's duration in seconds. */
  lemma BookingWindow(data: BookingData, up: Upstream, start: Instant, end: int)
    requires SlotsCheck(start, end) in BookingRequest(data, up).1
    ensures ValidateJobType(data.jobType, up.jobTypes).Ok?
    ensures ValidateJobType(data.jobType, up.jobTypes).value.Some?
    ensures up.fromIso(ReplaceZ(data.time)) == Ok(start)
    ensures end == start + ValidateJobType(data.jobType, up.jobTypes).value.value * MicrosPerSecond
  {
  }

  /** "No available slots" is never the reply: the slot check cannot answer
      False. */
  lemma NoSlotsUnreachable(data: BookingData, up: Upstream)
    ensures BookingRequest(data, up).0 != Ok(NoSlots)
  {
    SlotsNeverFalse(up.bookings);
  }

  /** Only a missing duration is rejected: a job type of duration 0 goes on
      to the work-area check, and with every later step succeeding the
      booking is validated over an empty window. */
  lemma ZeroDurationAccepted(data: BookingData, up: Upstream, start: Instant)
    requires ValidateJobType(data.jobType, up.jobTypes) == Ok(Some(0))
    requires ValidateWorkArea(data.address, up.businessUnits) == Ok(true)
    requires up.fromIso(ReplaceZ(data.time)) == Ok(start)
    requires up.bookings.token.Ok? && up.bookings.status == 200
    ensures BookingRequest(data, up) ==
      (Ok(Validated), [JobTypeCheck, WorkAreaCheck, SlotsCheck(start, start)])
  {
  }

  /** The booking is validated exactly when every check succeeds and the
      window stays within the datetime range. */
  lemma BookingValidated(data: BookingData, up: Upstream)
    ensures BookingRequest(data, up).0 == Ok(Validated) <==>
      var duration := ValidateJobType(data.jobType, up.jobTypes);
      var start := up.fromIso(ReplaceZ(data.time));
      && duration.Ok? && duration.value.Some?
      && ValidateWorkArea(data.address, up.businessUnits) == Ok(true)
      && start.Ok?
      && 0 <= start.value + duration.value.value * MicrosPerSecond <= MaxMicrosecond
      && up.bookings.token.Ok? && up.bookings.status == 200
  {
    SlotsNeverFalse(up.bookings);
  }

  /** A failure of `fromisoformat` reaches the client as a 500 carrying its
      own message, after the job type and work area were checked. */
  lemma IsoFailurePassesThrough(data: BookingData, up: Upstream, e: Exception)
    requires ValidateJobType(data.jobType, up.jobTypes).Ok?
    requires ValidateJobType(data.jobType, up.jobTypes).value.Some?
    requires ValidateWorkArea(data.address, up.businessUnits) == Ok(true)
    requires up.fromIso(ReplaceZ(data.time)) == Raise(e)
    ensures BookingRequest(data, up) == (Raise(HttpException(500, Str(e))), [JobTypeCheck, WorkAreaCheck])
  {
  }

  /** A validator's failure is wrapped twice on its way out: an upstream 404
      on the job type reaches the client as a 500 whose detail is
      "500: 404: Error fetching job types". */
  lemma JobTypeFailureWrappedTwice(data: BookingData, up: Upstream)
    requires up.jobTypes.token.Ok? && up.jobTypes.status != 200
    ensures BookingRequest(data, up).0 ==
      Raise(HttpException(500, "500: " + (IntToString(up.jobTypes.status) + ": Error fetching job types")))
  {
    JobTypeStatusLost(data.jobType, up.jobTypes);
    Rewrapped500(IntToString(up.jobTypes.status) + ": Error fetching job types");
  }

  /** Re-raising a 500 as a 500 prefixes its detail with "500: ". */
  lemma Rewrapped500(detail: string)
    ensures Reraise500(HttpException(500, detail)) == HttpException(500, "500: " + detail)
  {
    assert IntToString(500) == "500";
  }
}
