/**
  The 15-minute interval generator: given two "%Y-%m-%d %H:%M" timestamps,
  the consecutive 15-minute intervals that fit between them.
 */
module Intervals {
  import opened Http
  import opened Calendar
  import opened Timestamp

  datatype Interval = Interval(starttime: string, endtime: string)

  /** The HTTPException raised when a timestamp does not parse. */
  const InvalidFormat := HttpException(400, "Invalid date format. Use 'YYYY-MM-DD HH:MM'.")

  /** Number of whole 15-minute steps that fit from c to e. */
  function Count(c: int, e: int): nat {
    if e > c then (e - c) / 15 else 0
  }

  /** The interval that starts at instant c and ends 15 minutes later. */
  function Slot(c: int): Interval
    requires 0 <= c && c + 15 <= MaxMinute
  {
    Interval(FormatMinutes(c), FormatMinutes(c + 15))
  }

  /** The intervals from c up to e, a trailing piece shorter than a step
      left out. */
  function Run(c: int, e: int): (run: seq<Interval>)
    requires 0 <= c && e <= MaxMinute
    ensures |run| == Count(c, e)
    decreases e - c
  {
    if c + 15 > e then [] else [Slot(c)] + Run(c + 15, e)
  }

  /** Whether the last, partial step runs past 9999-12-31 23:59: Python then
      raises OverflowError while computing that step's end, before it can
      see that the step does not fit. */
  predicate TailOverflows(s: int, e: int) {
    var last := s + 15 * Count(s, e);
    s < e && last < e && last + 15 > MaxMinute
  }

  /** generate_intervals(start_time, end_time). */
  method GenerateIntervals(startTime: string, endTime: string) returns (r: Result<seq<Interval>>)
    ensures ParseMinutes(startTime).None? || ParseMinutes(endTime).None? ==> r == Raise(InvalidFormat)
    ensures ParseMinutes(startTime).Some? && ParseMinutes(endTime).Some? ==>
      var s, e := ParseMinutes(startTime).value, ParseMinutes(endTime).value;
      r == if TailOverflows(s, e) then Raise(OverflowError) else Ok(Run(s, e))
  {
    var start := ParseMinutes(startTime);
    var end := ParseMinutes(endTime);
    if start.None? || end.None? {
      return Raise(InvalidFormat);
    }
    var s, e := start.value, end.value;
    var current := s;
    var intervals: seq<Interval> := [];
    while current < e
      invariant current == s + 15 * |intervals|
      invariant current <= e || intervals == []
      invariant intervals + Run(current, e) == Run(s, e)
      decreases e - current
    {
      var next := current + 15;
      if next > MaxMinute {
        OverflowAt(s, e, |intervals|);
        return Raise(OverflowError);
      }
      if next > e {
        break;
      }
      RunStep(intervals, current, e, next, Run(s, e));
      intervals := intervals + [Interval(FormatMinutes(current), FormatMinutes(next))];
      current := next;
    }
    RunFinished(intervals, s, e, current);
    return Ok(intervals);
  }

  /** One turn of the loop: the interval from c to the next instant n moves
      from the runs still to come to the ones produced. */
  lemma RunStep(done: seq<Interval>, c: int, e: int, n: int, whole: seq<Interval>)
    requires 0 <= c && e <= MaxMinute && n == c + 15 && n <= e
    requires done + Run(c, e) == whole
    ensures (done + [Interval(FormatMinutes(c), FormatMinutes(n))]) + Run(n, e) == whole
  {
    RunCons(c, e, n);
    assert done + Run(c, e) == done + ([Interval(FormatMinutes(c), FormatMinutes(n))] + Run(n, e));
  }

  /** The loop stops at the first step that would pass the largest instant:
      that happens exactly when the tail overflows. */
  lemma OverflowAt(s: int, e: int, k: nat)
    requires 0 <= s && e <= MaxMinute
    requires s + 15 * k < e && s + 15 * k + 15 > MaxMinute
    ensures TailOverflows(s, e)
  {
    CountIs(s, e, k);
  }

  /** When the loop stops without overflowing, what it produced is the whole
      run and the tail does not overflow. */
  lemma RunFinished(done: seq<Interval>, s: int, e: int, c: int)
    requires 0 <= s <= c && e <= MaxMinute && c <= MaxMinute
    requires c == s + 15 * |done| && (c <= e || done == [])
    requires done + Run(c, e) == Run(s, e)
    requires c >= e || (c + 15 > e && c + 15 <= MaxMinute)
    ensures done == Run(s, e) && !TailOverflows(s, e)
  {
    CountIs(s, e, |done|);
    assert Run(c, e) == [];
    assert done + [] == done;
  }

  /** n whole steps fit from s to e, and no more. */
  lemma CountIs(s: int, e: int, n: nat)
    requires (n == 0 && e <= s) || s + 15 * n <= e < s + 15 * (n + 1)
    ensures Count(s, e) == n
  {
  }

  /** The run has floor((e - c) / 15) intervals, none when e <= c, and the
      piece it leaves uncovered at the end is shorter than one step. */
  lemma RunLength(c: int, e: int)
    requires 0 <= c && e <= MaxMinute
    ensures e <= c ==> Run(c, e) == []
    ensures e > c ==> |Run(c, e)| * 15 <= e - c < (|Run(c, e)| + 1) * 15
  {
  }

  /** A run that has room for one step is that step's interval followed by
      the run from the next instant n. */
  lemma RunCons(c: int, e: int, n: int)
    requires 0 <= c && e <= MaxMinute && n == c + 15 && n <= e
    ensures Run(c, e) == [Interval(FormatMinutes(c), FormatMinutes(n))] + Run(n, e)
  {
  }

  /** Dropping the first interval of a run leaves the run from the next step. */
  lemma RunTail(c: int, e: int, k: int)
    requires 0 <= c && e <= MaxMinute
    requires 0 < k < |Run(c, e)|
    ensures Run(c, e)[k] == Run(c + 15, e)[k - 1]
  {
  }

  /** The k-th interval of the run from c is the first of the run from
      n = c + 15k. */
  lemma {:induction false} RunShift(c: int, e: int, k: int, n: int)
    requires 0 <= c && e <= MaxMinute
    requires 0 <= k < |Run(c, e)| && n == c + 15 * k
    ensures 0 < |Run(n, e)| && Run(c, e)[k] == Run(n, e)[0]
    decreases e - c
  {
    if k == 0 {
      assert n == c;
      assert Run(c, e)[k] == Run(n, e)[0];
    } else {
      RunShift(c + 15, e, k - 1, n);
      RunTail(c, e, k);
      assert Run(c, e)[k] == Run(n, e)[0];
    }
  }

  /** A run that is not empty starts with the interval from c. */
  lemma RunHead(c: int, e: int)
    requires 0 <= c && e <= MaxMinute
    requires 0 < |Run(c, e)|
    ensures c + 15 <= e && Run(c, e)[0] == Slot(c)
  {
  }

  /** The k-th interval is the pair of timestamps of the instants n = c + 15k
      and n + 15, and it lies between c and e. */
  lemma RunAt(c: int, e: int, k: int, n: int)
    requires 0 <= c && e <= MaxMinute
    requires 0 <= k < |Run(c, e)| && n == c + 15 * k
    ensures c <= n && n + 15 <= e
    ensures Run(c, e)[k] == Interval(FormatMinutes(n), FormatMinutes(n + 15))
  {
    RunShift(c, e, k, n);
    RunHead(n, e);
  }

  /** Consecutive intervals abut: each ends where the next starts. */
  lemma RunContiguous(c: int, e: int, k: int)
    requires 0 <= c && e <= MaxMinute
    requires 0 <= k && k + 1 < |Run(c, e)|
    ensures Run(c, e)[k].endtime == Run(c, e)[k + 1].starttime
  {
    var n := c + 15 * k;
    RunAt(c, e, k, n);
    RunAt(c, e, k + 1, n + 15);
  }

  /** The first interval starts at the requested start; when the start was
      written in the zero-padded form strftime produces, its text is kept. */
  lemma RunStartsAtStart(startTime: string, e: int)
    requires ParseMinutes(startTime).Some? && e <= MaxMinute
    requires |Run(ParseMinutes(startTime).value, e)| > 0
    ensures ParseMinutes(Run(ParseMinutes(startTime).value, e)[0].starttime) == ParseMinutes(startTime)
    ensures startTime == Format(Parse(startTime).value) ==>
      Run(ParseMinutes(startTime).value, e)[0].starttime == startTime
  {
    var s := ParseMinutes(startTime).value;
    ParseFormatMinutes(s);
    FormatParsed(startTime);
  }

  /** The last interval, number k, ends at the requested end exactly when
      the span is a whole number of steps. */
  lemma RunEndsAtEnd(s: int, e: int, k: int)
    requires 0 <= s < e <= MaxMinute
    requires 0 <= k && k + 1 == |Run(s, e)|
    ensures Run(s, e)[k].endtime == FormatMinutes(e) <==> (e - s) % 15 == 0
  {
    LastStep(s, e, k);
    EndsAt(s, e, k, s + 15 * k);
  }

  /** Interval k, which starts at n, ends at e exactly when n + 15 == e. */
  lemma EndsAt(s: int, e: int, k: int, n: int)
    requires 0 <= s && e <= MaxMinute
    requires 0 <= k < |Run(s, e)| && n == s + 15 * k
    ensures Run(s, e)[k].endtime == FormatMinutes(e) <==> n + 15 == e
  {
    RunAt(s, e, k, n);
    FormatMinutesInjective(n + 15, e);
  }

  /** The last of k + 1 steps ends at e exactly when the span is a whole
      number of steps. */
  lemma LastStep(s: int, e: int, k: int)
    requires s < e && k == Count(s, e) - 1
    ensures s + 15 * k + 15 == e <==> (e - s) % 15 == 0
  {
  }

  /** Overflow needs the end within one step of the largest instant, so it
      never happens for ends before 9999-12-31 23:45. */
  lemma OverflowOnlyAtTheEndOfTime(s: int, e: int)
    requires TailOverflows(s, e)
    ensures e > MaxMinute - 15
  {
  }
}
