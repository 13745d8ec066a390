/**
 Laws of the instants that timestamps denote, told by counting on the clock: a second later
 is a second more, an offset is the distance between two clocks, and a fraction is a numeral.
 */
module TimestampLaws {
  import opened Utf8
  import opened JsonGrammar
  import opened Timestamp
  import opened TimestampOrder
  import opened Numerals

  // A clock of the Gregorian calendar, and how it goes on.
  datatype Clock = Clock(date: Date, hour: nat, minute: nat, second: nat)

  predicate ValidClock(c: Clock) {
    ValidDate(c.date) && c.hour < 24 && c.minute < 60 && c.second < 60
  }

  function ClockOf(s: Stamp): (c: Clock) {
    Clock(s.date, s.hour, s.minute, s.second)
  }

  function NextHour(c: Clock): (next: Clock)
    requires ValidClock(c)
    ensures ValidClock(next)
  {
    if c.hour < 23 then c.(hour := c.hour + 1) else c.(hour := 0, date := NextDay(c.date))
  }

  function NextMinute(c: Clock): (next: Clock)
    requires ValidClock(c)
    ensures ValidClock(next)
  {
    if c.minute < 59 then c.(minute := c.minute + 1) else NextHour(c.(minute := 0))
  }

  function NextSecond(c: Clock): (next: Clock)
    requires ValidClock(c)
    ensures ValidClock(next)
  {
    if c.second < 59 then c.(second := c.second + 1) else NextMinute(c.(second := 0))
  }

  // A clock some hours and minutes later.
  function Later(c: Clock, hours: nat, minutes: nat): (later: Clock)
    requires ValidClock(c)
    ensures ValidClock(later)
    decreases hours, minutes
  {
    if minutes > 0 then NextMinute(Later(c, hours, minutes - 1))
    else if hours > 0 then NextHour(Later(c, hours - 1, 0))
    else c
  }

  // The seconds that a clock shows.
  function Seconds(c: Clock): (seconds: int)
    requires ValidClock(c)
  {
    DayNumber(c.date) * 86400 + c.hour * 3600 + c.minute * 60 + c.second
  }

  lemma ClocksCount(c: Clock)
    requires ValidClock(c)
    ensures Seconds(NextHour(c)) == Seconds(c) + 3600
    ensures Seconds(NextMinute(c)) == Seconds(c) + 60
    ensures Seconds(NextSecond(c)) == Seconds(c) + 1
  {
    DayNumberCounts(c.date);
  }

  lemma {:induction false} LaterCounts(c: Clock, hours: nat, minutes: nat)
    requires ValidClock(c)
    ensures Seconds(Later(c, hours, minutes)) == Seconds(c) + hours * 3600 + minutes * 60
    decreases hours, minutes
  {
    if minutes > 0 {
      LaterCounts(c, hours, minutes - 1);
      ClocksCount(Later(c, hours, minutes - 1));
    } else if hours > 0 {
      LaterCounts(c, hours - 1, 0);
      ClocksCount(Later(c, hours - 1, 0));
    }
  }

  lemma SecondsTell(a: Clock, b: Clock)
    requires ValidClock(a) && ValidClock(b)
    ensures Seconds(a) == Seconds(b) <==> a == b
  {
    DayNumberOrders(a.date, b.date);
    var s, t := a.hour * 3600 + a.minute * 60 + a.second, b.hour * 3600 + b.minute * 60 + b.second;
    DaysThenSeconds(DayNumber(a.date), s, DayNumber(b.date), t);
    if Seconds(a) == Seconds(b) {
      SameTimeOfDay(a, b);
    }
  }

  lemma SameTimeOfDay(a: Clock, b: Clock)
    requires ValidClock(a) && ValidClock(b)
    requires a.hour * 3600 + a.minute * 60 + a.second == b.hour * 3600 + b.minute * 60 + b.second
    ensures a.hour == b.hour && a.minute == b.minute && a.second == b.second
  {
  }

  lemma InstantCounts(s: Stamp)
    requires ValidStamp(s)
    ensures Instant(s) ==
            (Seconds(ClockOf(s)) - OffsetSeconds(s.offset)) * 1_000_000_000 + FractionNanos(s.fraction)
  {
  }

  // Time starts with the epoch.
  lemma EpochIsZero(s: Stamp)
    requires ValidStamp(s) && ClockOf(s) == Clock(Date(1970, 1, 1), 0, 0, 0) && s.fraction == [] && s.offset.Zulu?
    ensures Instant(s) == 0
  {
    EpochClock(ClockOf(s));
    WholeSeconds(s, 0);
  }

  lemma EpochClock(c: Clock)
    requires c == Clock(Date(1970, 1, 1), 0, 0, 0)
    ensures Seconds(c) == 0
  {
    DayNumberCounts(c.date);
  }

  lemma WholeSeconds(s: Stamp, seconds: int)
    requires ValidStamp(s) && Seconds(ClockOf(s)) == seconds && s.fraction == [] && s.offset.Zulu?
    ensures Instant(s) == seconds * 1_000_000_000
  {
    InstantCounts(s);
    assert DigitsValue(s.fraction) == 0;
    assert FractionNanos(s.fraction) == 0;
  }

  // A second later by the clock is a second more, to the end of the last year.
  lemma NextSecondIsMore(s: Stamp, t: Stamp)
    requires ValidStamp(s) && t == s.(date := t.date, hour := t.hour, minute := t.minute, second := t.second)
    requires ClockOf(t) == NextSecond(ClockOf(s))
    ensures ValidStamp(t) <==> ClockOf(s) != Clock(Date(2262, 12, 31), 23, 59, 59)
    ensures ValidStamp(t) ==> Instant(t) == Instant(s) + 1_000_000_000
  {
    ClocksCount(ClockOf(s));
    NextYear(ClockOf(s));
    if ValidStamp(t) {
      InstantCounts(s);
      InstantCounts(t);
    }
  }

  lemma NextYear(c: Clock)
    requires ValidClock(c)
    ensures NextSecond(c).date.year ==
            if c == Clock(Date(c.date.year, 12, 31), 23, 59, 59) then c.date.year + 1 else c.date.year
  {
  }

  lemma OffsetCounts(o: Offset)
    requires o.Shift?
    ensures var span: int := o.hours * 3600 + o.minutes * 60; OffsetSeconds(o) == if o.plus then span else -span
  {
  }

  lemma SecondsDecide(a: int, b: int, nanos: int)
    ensures a * 1_000_000_000 + nanos == b * 1_000_000_000 + nanos <==> a == b
  {
  }

  // East of Greenwich clocks are ahead: a timestamp with an offset and one in universal time
  // denote the same instant exactly if the clock of the first is that of the second so many
  // hours and minutes later. West of it, it is the other way round.
  lemma OffsetIsDistance(s: Stamp, z: Stamp)
    requires ValidStamp(s) && ValidStamp(z) && s.offset.Shift? && z.offset.Zulu? && s.fraction == z.fraction
    ensures s.offset.plus ==>
              (Instant(s) == Instant(z) <==> ClockOf(s) == Later(ClockOf(z), s.offset.hours, s.offset.minutes))
    ensures !s.offset.plus ==>
              (Instant(s) == Instant(z) <==> ClockOf(z) == Later(ClockOf(s), s.offset.hours, s.offset.minutes))
  {
    var h, m := s.offset.hours, s.offset.minutes;
    InstantCounts(s);
    InstantCounts(z);
    OffsetCounts(s.offset);
    SecondsDecide(Seconds(ClockOf(s)) - OffsetSeconds(s.offset), Seconds(ClockOf(z)), FractionNanos(s.fraction));
    if s.offset.plus {
      LaterCounts(ClockOf(z), h, m);
      SecondsTell(ClockOf(s), Later(ClockOf(z), h, m));
    } else {
      LaterCounts(ClockOf(s), h, m);
      SecondsTell(ClockOf(z), Later(ClockOf(s), h, m));
    }
  }

  // A plus sign is spelled for the east, a minus sign for the west; Z stands for no offset.
  lemma OffsetIsSpelled(s: Stamp)
    requires ValidStamp(s)
    ensures var at, text := 19 + |FractionText(s.fraction)|, StampText(s);
            && at < |text|
            && (s.offset.Zulu? <==> text[at] == 'Z' as int)
            && (s.offset.Shift? && s.offset.plus <==> text[at] == '+' as int)
            && (s.offset.Shift? && !s.offset.plus <==> text[at] == '-' as int)
  {
  }

  // The fraction is the numeral of its nanoseconds, with zeros for the digits that it lacks.
  lemma {:induction false} FractionIsNumeral(fraction: seq<Byte>)
    requires Digits(fraction) && |fraction| <= 9
    ensures IsNumeral(fraction + Zeros(9 - |fraction|), FractionNanos(fraction))
    decreases 9 - |fraction|
  {
    if |fraction| == 9 {
      DigitsAreNumeral(fraction);
      assert fraction + Zeros(0) == fraction;
    } else {
      FractionStep(fraction, 0x30);
      FractionIsNumeral(fraction + [0x30]);
      assert fraction + Zeros(9 - |fraction|) == (fraction + [0x30]) + Zeros(8 - |fraction|);
    }
  }
}
