/**
  The "%Y-%m-%d %H:%M" timestamps the interval helper reads and writes:
  `datetime.strptime` (parsing) and `datetime.strftime` (formatting) for
  that one format.

  strptime turns the format into a regular expression: %Y is four digits,
  %m one or two digits from 1 to 12, %d one or two digits from 1 to 31 or a
  space and one digit, %H one or two digits up to 23, %M one or two digits up
  to 59, the space becomes a run of one or more whitespace characters, and
  the whole text must be consumed. The date must then exist in the
  calendar. strftime writes every field zero-padded.
 */
module Timestamp {
  import opened Http
  import opened Calendar

  predicate IsDigit(c: char) {
    '0' <= c <= '9'
  }

  predicate AllDigits(s: string) {
    forall i :: 0 <= i < |s| ==> IsDigit(s[i])
  }

  /** Whitespace as Python's `\s` matches it in a text pattern. */
  predicate IsSpace(c: char) {
    var k := c as int;
    || k == 32 || 9 <= k <= 13 || 28 <= k <= 31 || k == 0x85 || k == 0xA0
    || k == 0x1680 || 0x2000 <= k <= 0x200A || k == 0x2028 || k == 0x2029
    || k == 0x202F || k == 0x205F || k == 0x3000
  }

  /** Length of the run of digits that starts s. */
  function Digits(s: string): (n: nat)
    ensures n <= |s| && AllDigits(s[..n])
    ensures n < |s| ==> !IsDigit(s[n])
  {
    if s != [] && IsDigit(s[0]) then 1 + Digits(s[1..]) else 0
  }

  /** Length of the run of whitespace that starts s. */
  function Spaces(s: string): (n: nat)
    ensures n <= |s|
    ensures forall i :: 0 <= i < n ==> IsSpace(s[i])
    ensures n < |s| ==> !IsSpace(s[n])
  {
    if s != [] && IsSpace(s[0]) then 1 + Spaces(s[1..]) else 0
  }

  /** A one- or two-digit field no larger than `max`, and what follows it. */
  function Field(s: string, max: int): Option<(int, string)> {
    var n := Digits(s);
    if 1 <= n <= 2 && DigitsValue(s[..n]) <= max then Some((DigitsValue(s[..n]), s[n..]))
    else None
  }

  /** The %d field: one or two digits from 1 to 31, or a space and one digit. */
  function DayField(s: string): Option<(int, string)> {
    if s != [] && s[0] == ' ' then
      var n := Digits(s[1..]);
      if n == 1 && DigitsValue(s[1..2]) >= 1 then Some((DigitsValue(s[1..2]), s[2..])) else None
    else
      match Field(s, 31)
      case Some((d, rest)) => if d >= 1 then Some((d, rest)) else None
      case None => None
  }

  /** The "%H:%M" tail: hour, colon, minute, and nothing after. */
  function ParseClock(s: string): Option<(int, int)> {
    match Field(s, 23)
    case None => None
    case Some((hour, rest)) =>
      if rest == [] || rest[0] != ':' then None
      else
        match Field(rest[1..], 59)
        case None => None
        case Some((minute, tail)) => if tail == [] then Some((hour, minute)) else None
  }

  /** The format's space (one or more whitespace characters), then the clock. */
  function ParseGapClock(s: string): Option<(int, int)> {
    var w := Spaces(s);
    if w == 0 then None else ParseClock(s[w..])
  }

  /** `datetime.strptime(s, "%Y-%m-%d %H:%M")`, None where it raises ValueError. */
  function Parse(s: string): (r: Option<DateTime>)
    ensures r.Some? ==> Valid(r.value)
  {
    if |s| < 5 || !AllDigits(s[..4]) || s[4] != '-' then None
    else
      var year := DigitsValue(s[..4]);
      match Field(s[5..], 12)
      case None => None
      case Some((month, r1)) =>
        if month < 1 || r1 == [] || r1[0] != '-' then None
        else
          match DayField(r1[1..])
          case None => None
          case Some((day, r2)) =>
            match ParseGapClock(r2)
            case None => None
            case Some((hour, minute)) =>
              var t := DateTime(year, month, day, hour, minute);
              if Valid(t) then Some(t) else None
  }

  function Pad2(v: int): (s: string)
    requires 0 <= v < 100
    ensures |s| == 2 && AllDigits(s)
  {
    [DigitChar(v / 10), DigitChar(v % 10)]
  }

  function Pad4(v: int): (s: string)
    requires 0 <= v < 10000
    ensures |s| == 4 && AllDigits(s)
  {
    Pad2(v / 100) + Pad2(v % 100)
  }

  /** `t.strftime("%Y-%m-%d %H:%M")`. */
  function Format(t: DateTime): (s: string)
    requires Valid(t)
    ensures |s| == 16
  {
    Pad4(t.year) + ("-" + (Pad2(t.month) + ("-" + (Pad2(t.day)
      + (" " + (Pad2(t.hour) + (":" + Pad2(t.minute))))))))
  }

  /** The instant a timestamp names, in minutes since 0001-01-01 00:00. */
  function ParseMinutes(s: string): (r: Option<int>)
    ensures r.Some? ==> 0 <= r.value <= MaxMinute
  {
    match Parse(s)
    case Some(t) => Some(ToMinutes(t))
    case None => None
  }

  /** The timestamp of an instant. */
  function FormatMinutes(n: int): string
    requires 0 <= n <= MaxMinute
  {
    FromMinutesSpec(n);
    Format(FromMinutes(n))
  }

  lemma Pad2Value(v: int)
    requires 0 <= v < 100
    ensures DigitsValue(Pad2(v)) == v
  {
    var s := Pad2(v);
    assert s[..1] == [DigitChar(v / 10)];
    assert DigitsValue(s[..1]) == v / 10 by {
      assert s[..1][..0] == [];
    }
  }

  lemma DigitsValueSnoc(s: string, c: char)
    ensures DigitsValue(s + [c]) == DigitsValue(s) * 10 + (c as int - '0' as int)
  {
    assert (s + [c])[..|s|] == s;
  }

  lemma Pad4Value(v: int)
    requires 0 <= v < 10000
    ensures DigitsValue(Pad4(v)) == v
  {
    var hi, lo := Pad2(v / 100), Pad2(v % 100);
    Pad2Value(v / 100);
    Pad2Value(v % 100);
    DigitsValueSnoc(hi, lo[0]);
    DigitsValueSnoc(hi + [lo[0]], lo[1]);
    assert DigitsValue(lo) == DigitsValue([lo[0]]) * 10 + (lo[1] as int - '0' as int) by {
      assert lo[..1] == [lo[0]];
    }
    assert DigitsValue([lo[0]]) == lo[0] as int - '0' as int by {
      assert [lo[0]][..0] == [];
    }
    assert Pad4(v) == hi + [lo[0]] + [lo[1]];
  }

  /** A digit string followed by a non-digit is a run of exactly its length. */
  lemma {:induction false} DigitsOfPrefix(a: string, b: string)
    requires AllDigits(a)
    requires b == [] || !IsDigit(b[0])
    ensures Digits(a + b) == |a|
    decreases |a|
  {
    if a != [] {
      assert (a + b)[1..] == a[1..] + b;
      DigitsOfPrefix(a[1..], b);
    } else {
      assert a + b == b;
    }
  }

  /** A zero-padded field followed by a non-digit parses back to its value. */
  lemma FieldOfPad2(v: int, max: int, rest: string)
    requires 0 <= v <= max && v < 100
    requires rest == [] || !IsDigit(rest[0])
    ensures Field(Pad2(v) + rest, max) == Some((v, rest))
  {
    DigitsOfPrefix(Pad2(v), rest);
    assert (Pad2(v) + rest)[..2] == Pad2(v);
    assert (Pad2(v) + rest)[2..] == rest;
    Pad2Value(v);
  }

  lemma {:induction false} SpacesOfPrefix(a: string, b: string)
    requires forall i :: 0 <= i < |a| ==> IsSpace(a[i])
    requires b == [] || !IsSpace(b[0])
    ensures Spaces(a + b) == |a|
    decreases |a|
  {
    if a != [] {
      assert (a + b)[1..] == a[1..] + b;
      SpacesOfPrefix(a[1..], b);
    } else {
      assert a + b == b;
    }
  }

  lemma ClockOfPad2(h: int, m: int)
    requires 0 <= h < 24 && 0 <= m < 60
    ensures ParseClock(Pad2(h) + (":" + Pad2(m))) == Some((h, m))
  {
    var afterHour := ":" + Pad2(m);
    FieldOfPad2(h, 23, afterHour);
    assert afterHour[1..] == Pad2(m) + [];
    FieldOfPad2(m, 59, []);
  }

  lemma GapClockOfSpace(clock: string)
    requires clock != [] && IsDigit(clock[0])
    ensures ParseGapClock(" " + clock) == ParseClock(clock)
  {
    SpacesOfPrefix(" ", clock);
    assert (" " + clock)[1..] == clock;
  }

  /** strptime reads back every timestamp strftime writes. */
  lemma ParseFormat(t: DateTime)
    requires Valid(t)
    ensures Parse(Format(t)) == Some(t)
  {
    var s := Format(t);
    var clock := Pad2(t.hour) + (":" + Pad2(t.minute));
    var afterDay := " " + clock;
    var afterMonth := "-" + (Pad2(t.day) + afterDay);
    assert s == Pad4(t.year) + ("-" + (Pad2(t.month) + afterMonth));
    assert s[..4] == Pad4(t.year);
    Pad4Value(t.year);
    assert s[5..] == Pad2(t.month) + afterMonth;
    FieldOfPad2(t.month, 12, afterMonth);
    assert Field(s[5..], 12) == Some((t.month, afterMonth));
    assert afterMonth[1..] == Pad2(t.day) + afterDay;
    FieldOfPad2(t.day, 31, afterDay);
    assert DayField(afterMonth[1..]) == Some((t.day, afterDay));
    ClockOfPad2(t.hour, t.minute);
    GapClockOfSpace(clock);
    assert ParseGapClock(afterDay) == Some((t.hour, t.minute));
  }

  /** An instant written as a timestamp reads back as the same instant. */
  lemma ParseFormatMinutes(n: int)
    requires 0 <= n <= MaxMinute
    ensures ParseMinutes(FormatMinutes(n)) == Some(n)
  {
    FromMinutesSpec(n);
    ParseFormat(FromMinutes(n));
  }

  /** strftime is one-to-one: two instants get the same timestamp exactly
      when they are the same instant. */
  lemma FormatMinutesInjective(m: int, n: int)
    requires 0 <= m <= MaxMinute && 0 <= n <= MaxMinute
    ensures FormatMinutes(m) == FormatMinutes(n) <==> m == n
  {
    if m != n {
      ParseFormatMinutes(m);
      ParseFormatMinutes(n);
    }
  }

  /** Reformatting a parsed timestamp gives its canonical, zero-padded form,
      which names the same instant. */
  lemma FormatParsed(s: string)
    requires ParseMinutes(s).Some?
    ensures FormatMinutes(ParseMinutes(s).value) == Format(Parse(s).value)
  {
    FromToMinutes(Parse(s).value);
  }

  /** A single digit followed by a non-digit is a one-digit field. */
  lemma FieldOfDigit(v: int, max: int, rest: string)
    requires 0 <= v <= max && v < 10
    requires rest == [] || !IsDigit(rest[0])
    ensures Field([DigitChar(v)] + rest, max) == Some((v, rest))
  {
    DigitsOfPrefix([DigitChar(v)], rest);
    assert ([DigitChar(v)] + rest)[..1] == [DigitChar(v)];
    assert ([DigitChar(v)] + rest)[1..] == rest;
    assert DigitsValue([DigitChar(v)]) == v by {
      assert [DigitChar(v)][..0] == [];
    }
  }

  /** One-digit hour and minute after any run of whitespace. */
  lemma LooseGapClock(gap: string, h: int, m: int)
    requires 0 <= h < 10 && 0 <= m < 10
    requires |gap| >= 1 && forall i :: 0 <= i < |gap| ==> IsSpace(gap[i])
    ensures ParseGapClock(gap + ([DigitChar(h)] + (":" + [DigitChar(m)]))) == Some((h, m))
  {
    var clock := [DigitChar(h)] + (":" + [DigitChar(m)]);
    SpacesOfPrefix(gap, clock);
    assert (gap + clock)[|gap|..] == clock;
    var afterHour := ":" + [DigitChar(m)];
    FieldOfDigit(h, 23, afterHour);
    assert afterHour[1..] == [DigitChar(m)] + [];
    FieldOfDigit(m, 59, []);
  }

  /** A timestamp written without zero padding, with `gap` between date and
      time. */
  function LooseText(t: DateTime, gap: string): (s: string)
    requires Valid(t) && t.month < 10 && t.day < 10 && t.hour < 10 && t.minute < 10
    ensures |s| == 11 + |gap|
  {
    Pad4(t.year) + ("-" + ([DigitChar(t.month)] + ("-" + ([DigitChar(t.day)]
      + (gap + ([DigitChar(t.hour)] + (":" + [DigitChar(t.minute)])))))))
  }

  /** strptime also accepts one-digit month, day, hour and minute fields and
      any run of whitespace between date and time. */
  lemma ParseAcceptsLooseForm(t: DateTime, gap: string)
    requires Valid(t) && t.month < 10 && t.day < 10 && t.hour < 10 && t.minute < 10
    requires |gap| >= 1 && forall i :: 0 <= i < |gap| ==> IsSpace(gap[i])
    ensures Parse(LooseText(t, gap)) == Some(t)
  {
    var afterDay := gap + ([DigitChar(t.hour)] + (":" + [DigitChar(t.minute)]));
    var afterMonth := "-" + ([DigitChar(t.day)] + afterDay);
    var s := LooseText(t, gap);
    assert s == Pad4(t.year) + ("-" + ([DigitChar(t.month)] + afterMonth));
    assert s[..4] == Pad4(t.year);
    Pad4Value(t.year);
    assert s[5..] == [DigitChar(t.month)] + afterMonth;
    FieldOfDigit(t.month, 12, afterMonth);
    assert Field(s[5..], 12) == Some((t.month, afterMonth));
    assert afterMonth[1..] == [DigitChar(t.day)] + afterDay;
    assert IsSpace(gap[0]) && !IsDigit(gap[0]);
    FieldOfDigit(t.day, 31, afterDay);
    assert DayField(afterMonth[1..]) == Some((t.day, afterDay));
    LooseGapClock(gap, t.hour, t.minute);
    assert ParseGapClock(afterDay) == Some((t.hour, t.minute));
  }

  /** Hence strftime(strptime(s)) is not always s: such a timestamp reads as
      an instant whose timestamp is the padded, longer text. */
  lemma ReformatDiffers(t: DateTime)
    requires Valid(t) && t.month < 10 && t.day < 10 && t.hour < 10 && t.minute < 10
    ensures ParseMinutes(LooseText(t, " ")).Some?
    ensures FormatMinutes(ParseMinutes(LooseText(t, " ")).value) != LooseText(t, " ")
  {
    assert IsSpace(" "[0]);
    ParseAcceptsLooseForm(t, " ");
    FromToMinutes(t);
  }
}
