/**
  The available-slot route: from a start timestamp it builds a four-hour
  window, asks the vendor's capacity service once for that window, and
  keeps the vendor slots marked available, copying their four times.

  The capacity service is a parameter: a function from the query sent to
  the response that comes back. The access-token fetch is an input that
  either gives a token or raises.
 */
module Slots {
  import opened Http
  import opened Calendar
  import opened Timestamp
  import opened Intervals

  /** One entry of the vendor's `availabilities` list. */
  datatype VendorSlot = VendorSlot(
    start: string, end: string, startUtc: string, endUtc: string, isAvailable: bool)

  /** One entry of the route's `available_slots` list. */
  datatype AvailableSlot = AvailableSlot(
    starttime: string, endtime: string, starttimeUtc: string, endtimeUtc: string)

  /** The JSON payload of a capacity query. */
  datatype CapacityQuery = CapacityQuery(
    startsOnOrAfter: string, endsOnOrBefore: string, businessUnitIds: seq<int>,
    jobTypeId: int, skillBasedAvailability: bool)

  /** A capacity response: its status code, its text, and the
      `availabilities` member of its JSON body (None when absent or null). */
  datatype CapacityResponse = CapacityResponse(
    status: int, text: string, availabilities: Option<seq<VendorSlot>>)

  /** The window is four hours long. */
  const WindowMinutes := 240

  /** The end of the window that starts at instant s, as strftime writes it. */
  function WindowEnd(s: int): (text: string)
    requires 0 <= s && s + WindowMinutes <= MaxMinute
    ensures ParseMinutes(text).Some? && ParseMinutes(text).value == s + WindowMinutes
  {
    var e := s + WindowMinutes;
    ParseFormatMinutes(e);
    FormatMinutes(e)
  }

  /** The only query the route sends: the whole window, business unit 1097,
      job type 1124, skill-based availability. */
  function WindowQuery(startTime: string, windowEnd: string): (q: CapacityQuery)
    ensures q.startsOnOrAfter == startTime && q.endsOnOrBefore == windowEnd
  {
    CapacityQuery(startTime, windowEnd, [1097], 1124, true)
  }

  /** The copy of a vendor slot that the route returns. */
  function Copy(slot: VendorSlot): (a: AvailableSlot)
    ensures a.starttime == slot.start && a.endtime == slot.end
    ensures a.starttimeUtc == slot.startUtc && a.endtimeUtc == slot.endUtc
  {
    AvailableSlot(slot.start, slot.end, slot.startUtc, slot.endUtc)
  }

  /** The available vendor slots, copied, in the vendor's order. */
  function KeepAvailable(slots: seq<VendorSlot>): seq<AvailableSlot>
  {
    if slots == [] then []
    else
      var last := slots[|slots| - 1];
      KeepAvailable(slots[..|slots| - 1]) + (if last.isAvailable then [Copy(last)] else [])
  }

  /** The error a response other than 200 raises. */
  function UpstreamFailure(response: CapacityResponse): (e: Exception)
    ensures e.HttpException? && e.status == response.status
  {
    HttpException(response.status,
      "External API call failed with status code " + IntToString(response.status) + ": " + response.text)
  }

  /** What the route makes of the vendor's answer to its one query. */
  function Answer(response: CapacityResponse): (r: Result<seq<AvailableSlot>>)
    ensures response.status != 200 ==> r == Raise(UpstreamFailure(response))
    ensures response.status == 200 && response.availabilities.None? ==> r == Raise(NoLengthError)
    ensures r.Ok? ==> response.status == 200 && r.value == KeepAvailable(response.availabilities.value)
  {
    if response.status != 200 then Raise(UpstreamFailure(response))
    else if response.availabilities.None? then Raise(NoLengthError)
    else Ok(KeepAvailable(response.availabilities.value))
  }

  /** The inner loop: walk the vendor's slots and append a copy of every
      available one. */
  method CollectAvailable(slots: seq<VendorSlot>) returns (kept: seq<AvailableSlot>)
    ensures kept == KeepAvailable(slots)
  {
    kept := [];
    var i := 0;
    while i < |slots|
      invariant 0 <= i <= |slots|
      invariant kept == KeepAvailable(slots[..i])
    {
      assert slots[..i + 1][..i] == slots[..i];
      if slots[i].isAvailable {
        kept := kept + [Copy(slots[i])];
      }
      i := i + 1;
    }
    assert slots[..i] == slots;
  }

  /** get_available_slots(start_time). */
  method GetAvailableSlots(startTime: string, token: Result<string>,
                           vendor: CapacityQuery -> CapacityResponse)
    returns (r: Result<seq<AvailableSlot>>, queries: seq<CapacityQuery>)
    ensures ParseMinutes(startTime).None? ==> r == Raise(DateParseError) && queries == []
    ensures ParseMinutes(startTime).Some? && ParseMinutes(startTime).value + WindowMinutes > MaxMinute ==>
      r == Raise(OverflowError) && queries == []
    ensures ParseMinutes(startTime).Some? && ParseMinutes(startTime).value + WindowMinutes <= MaxMinute ==>
      var query := WindowQuery(startTime, WindowEnd(ParseMinutes(startTime).value));
      if token.Raise? then r == Raise(token.exception) && queries == []
      else queries == [query] && r == Answer(vendor(query))
  {
    var start := ParseMinutes(startTime);
    if start.None? {
      return Raise(DateParseError), [];
    }
    var s := start.value;
    if s + WindowMinutes > MaxMinute {
      return Raise(OverflowError), [];
    }
    var endTime := WindowEnd(s);
    if token.Raise? {
      return Raise(token.exception), [];
    }
    WindowIntervals(s, ParseMinutes(endTime).value);
    var generated := GenerateIntervals(startTime, endTime);
    assert generated.Ok?;
    r, queries := QueryIntervals(startTime, endTime, generated.value, vendor);
  }

  /** The loop over the intervals: its body queries the whole window, not
      the interval, and leaves the loop after the first turn, so one query
      is sent whenever there is an interval. */
  method QueryIntervals(startTime: string, endTime: string, intervals: seq<Interval>,
                        vendor: CapacityQuery -> CapacityResponse)
    returns (r: Result<seq<AvailableSlot>>, queries: seq<CapacityQuery>)
    ensures intervals == [] ==> r == Ok([]) && queries == []
    ensures intervals != [] ==>
      var query := WindowQuery(startTime, endTime);
      queries == [query] && r == Answer(vendor(query))
  {
    var available: seq<AvailableSlot> := [];
    queries := [];
    for i := 0 to |intervals|
      invariant queries == [] && available == []
    {
      var query := WindowQuery(startTime, endTime);
      var response := vendor(query);
      queries := queries + [query];
      if response.status != 200 {
        return Raise(UpstreamFailure(response)), queries;
      }
      if response.availabilities.None? {
        return Raise(NoLengthError), queries;
      }
      var found := CollectAvailable(response.availabilities.value);
      available := available + found;
      assert available == found;
      break;
    }
    return Ok(available), queries;
  }

  /** The four-hour window holds sixteen 15-minute intervals and its tail
      never overflows, so the route always sends its one query. */
  lemma WindowIntervals(s: int, e: int)
    requires 0 <= s && e == s + WindowMinutes && e <= MaxMinute
    ensures |Run(s, e)| == 16 && !TailOverflows(s, e)
  {
    CountIs(s, e, 16);
  }

  /** Filtering distributes over concatenation: it keeps the vendor's order. */
  lemma {:induction false} KeepAvailableAppend(a: seq<VendorSlot>, b: seq<VendorSlot>)
    ensures KeepAvailable(a + b) == KeepAvailable(a) + KeepAvailable(b)
    decreases |b|
  {
    if b == [] {
      assert a + b == a;
    } else {
      var c := a + b;
      assert c[..|c| - 1] == a + b[..|b| - 1];
      KeepAvailableAppend(a, b[..|b| - 1]);
    }
  }

  /** A slot is returned exactly when some vendor slot marked available is
      copied into it. */
  lemma {:induction false} KeepAvailableMembers(slots: seq<VendorSlot>, a: AvailableSlot)
    ensures a in KeepAvailable(slots) <==>
      exists i :: 0 <= i < |slots| && slots[i].isAvailable && a == Copy(slots[i])
    decreases |slots|
  {
    if slots != [] {
      var init := slots[..|slots| - 1];
      KeepAvailableMembers(init, a);
      if exists i :: 0 <= i < |init| && init[i].isAvailable && a == Copy(init[i]) {
        var i :| 0 <= i < |init| && init[i].isAvailable && a == Copy(init[i]);
        assert slots[i] == init[i];
      }
      if exists i :: 0 <= i < |slots| && slots[i].isAvailable && a == Copy(slots[i]) {
        var i :| 0 <= i < |slots| && slots[i].isAvailable && a == Copy(slots[i]);
        if i < |init| {
          assert init[i] == slots[i];
        }
      }
    }
  }

  /** No more slots come back than the vendor sent, and all of them when
      every one is available. */
  lemma {:induction false} KeepAvailableLength(slots: seq<VendorSlot>)
    ensures |KeepAvailable(slots)| <= |slots|
    ensures (forall i :: 0 <= i < |slots| ==> slots[i].isAvailable) ==>
      KeepAvailable(slots) == seq(|slots|, i requires 0 <= i < |slots| => Copy(slots[i]))
    decreases |slots|
  {
    if slots != [] {
      var init := slots[..|slots| - 1];
      KeepAvailableLength(init);
    }
  }

  /** The route answers only a 200 with an `availabilities` list, and an
      upstream failure reaches the client with the upstream status code, and
      with its message only when that status may carry a body (a vendor 204
      comes back as an empty 204). */
  lemma AnswerCases(response: CapacityResponse)
    ensures Answer(response).Ok? <==> response.status == 200 && response.availabilities.Some?
    ensures response.status != 200 ==>
      Respond(Answer(response).exception).0 == response.status
    ensures response.status != 200 && BodyAllowed(response.status) ==>
      Respond(Answer(response).exception).1 == UpstreamFailure(response).detail
    ensures response.status != 200 && !BodyAllowed(response.status) ==>
      Respond(Answer(response).exception).1 == ""
    ensures response.status == 200 && response.availabilities.None? ==>
      Respond(Answer(response).exception) == (500, "Internal Server Error")
  {
  }
}
