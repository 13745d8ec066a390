/**
 Timestamps with explicit offsets: the texts that are accepted, the proleptic Gregorian
 instant each of them denotes in nanoseconds, and how byte order follows time order.
 */
module Timestamp {
  import opened Wrappers
  import opened Arithmetic
  import opened Utf8
  import opened JsonGrammar
  import opened JsonScanner

  const MAX_INT64: int := 0x7FFF_FFFF_FFFF_FFFF
  const BILLION: int := 1_000_000_000
  const LETTER_T: Byte := 0x54
  const LETTER_Z: Byte := 0x5A
  const PLUS: Byte := 0x2B

  // ----- The calendar -----------------------------------------------------------------

  predicate Leap(year: nat) {
    year % 4 == 0 && (year % 100 != 0 || year % 400 == 0)
  }

  const MONTH_DAYS: seq<nat> := [31, 28, 31, 30, 31, 30, 31, 31, 30, 31, 30, 31]

  function MonthDays(year: nat, month: nat): (days: nat)
    requires 1 <= month <= 12
    ensures 28 <= days <= 31
  {
    MONTH_DAYS[month - 1] + (if month == 2 && Leap(year) then 1 else 0)
  }

  // How many leap years precede a year.
  function LeapsBefore(year: nat): (leaps: int)
    requires year >= 1
  {
    (year - 1) / 4 - (year - 1) / 100 + (year - 1) / 400
  }

  // The days before a month within its year.
  function DaysBeforeMonth(year: nat, month: nat): (days: nat)
    requires 1 <= month <= 12
  {
    [0, 31, 59, 90, 120, 151, 181, 212, 243, 273, 304, 334][month - 1] + (if month > 2 && Leap(year) then 1 else 0)
  }

  datatype Date = Date(year: nat, month: nat, day: nat)

  predicate ValidDate(d: Date) {
    1970 <= d.year && 1 <= d.month <= 12 && 1 <= d.day <= MonthDays(d.year, d.month)
  }

  // The number of days from the first of January 1970.
  function DayNumber(d: Date): (days: int)
    requires ValidDate(d)
  {
    365 * (d.year - 1970) + LeapsBefore(d.year) - LeapsBefore(1970) + DaysBeforeMonth(d.year, d.month) + d.day - 1
  }

  function NextDay(d: Date): (next: Date)
    requires ValidDate(d)
    ensures ValidDate(next)
  {
    if d.day < MonthDays(d.year, d.month) then Date(d.year, d.month, d.day + 1)
    else if d.month < 12 then Date(d.year, d.month + 1, 1)
    else Date(d.year + 1, 1, 1)
  }

  lemma LeapStep(year: nat)
    requires year >= 1
    ensures LeapsBefore(year + 1) == LeapsBefore(year) + (if Leap(year) then 1 else 0)
  {
    DivStep(year, 4);
    DivStep(year, 100);
    DivStep(year, 400);
    assert year % 100 == 0 ==> year % 4 == 0;
    assert year % 400 == 0 ==> year % 100 == 0;
  }

  lemma DivStep(y: nat, n: nat)
    requires y >= 1 && n >= 1
    ensures y / n == (y - 1) / n + (if y % n == 0 then 1 else 0)
  {
    var q, r := (y - 1) / n, (y - 1) % n;
    assert y - 1 == q * n + r;
    if r + 1 < n {
      DivUnique(y, n, q, r + 1);
    } else {
      assert (q + 1) * n == q * n + n;
      DivUnique(y, n, q + 1, 0);
    }
  }

  // Day numbers count the days of the Gregorian calendar, starting at the epoch.
  lemma DayNumberCounts(d: Date)
    requires ValidDate(d)
    ensures DayNumber(Date(1970, 1, 1)) == 0
    ensures DayNumber(NextDay(d)) == DayNumber(d) + 1
  {
    if d.day == MonthDays(d.year, d.month) {
      if d.month < 12 {
        MonthStep(d.year, d.month);
      } else {
        LeapStep(d.year);
      }
    }
  }

  lemma MonthStep(year: nat, month: nat)
    requires 1 <= month < 12
    ensures DaysBeforeMonth(year, month + 1) == DaysBeforeMonth(year, month) + MonthDays(year, month)
  {
  }

  lemma {:induction false} LaterMonth(year: nat, a: nat, b: nat)
    requires 1 <= a < b <= 12
    ensures DaysBeforeMonth(year, a) + MonthDays(year, a) <= DaysBeforeMonth(year, b)
    decreases b - a
  {
    MonthStep(year, a);
    if a + 1 < b {
      LaterMonth(year, a + 1, b);
    }
  }

  lemma WithinYear(d: Date)
    requires ValidDate(d)
    ensures DaysBeforeMonth(d.year, d.month) + d.day <= 365 + (if Leap(d.year) then 1 else 0)
  {
  }

  predicate Earlier(a: Date, b: Date) {
    a.year < b.year || (a.year == b.year && (a.month < b.month || (a.month == b.month && a.day < b.day)))
  }

  lemma {:induction false} LaterYear(a: nat, b: nat)
    requires 1970 <= a < b
    ensures 365 * a + LeapsBefore(a) + 365 + (if Leap(a) then 1 else 0) <= 365 * b + LeapsBefore(b)
    decreases b - a
  {
    LeapStep(a);
    if a + 1 < b {
      LaterYear(a + 1, b);
    }
  }

  lemma EarlierIsLess(a: Date, b: Date)
    requires ValidDate(a) && ValidDate(b) && Earlier(a, b)
    ensures DayNumber(a) < DayNumber(b)
  {
    if a.year < b.year {
      LaterYear(a.year, b.year);
      WithinYear(a);
    } else if a.month < b.month {
      LaterMonth(a.year, a.month, b.month);
    }
  }

  lemma DayNumberOrders(a: Date, b: Date)
    requires ValidDate(a) && ValidDate(b)
    ensures DayNumber(a) < DayNumber(b) <==> Earlier(a, b)
    ensures DayNumber(a) == DayNumber(b) <==> a == b
  {
    if Earlier(a, b) {
      EarlierIsLess(a, b);
    } else if Earlier(b, a) {
      EarlierIsLess(b, a);
    }
  }

  // ----- Timestamps and their texts ---------------------------------------------------

  datatype Offset = Zulu | Shift(plus: bool, hours: nat, colon: bool, minutes: nat)

  // The fraction is a run of digits, empty when there is none.
  datatype Stamp = Stamp(
    date: Date, separator: Byte, hour: nat, minute: nat, second: nat, fraction: seq<Byte>, offset: Offset)

  predicate ValidStamp(s: Stamp) {
    && ValidDate(s.date) && s.date.year <= 2262
    && (s.separator == LETTER_T || s.separator == 0x20)
    && s.hour <= 23 && s.minute <= 59 && s.second <= 59
    && |s.fraction| <= 9 && Digits(s.fraction)
    && (s.offset.Shift? ==> s.offset.hours <= 23 && s.offset.minutes <= 59)
  }

  function Digit(n: nat): (digit: Byte)
    requires n < 10
  {
    0x30 + n
  }

  // The tens and the units digit of a two-digit number.
  function Tens(n: nat): (digit: Byte)
    requires n < 100
  {
    Digit(n / 10)
  }

  function Units(n: nat): (digit: Byte) {
    Digit(n % 10)
  }

  function OffsetText(o: Offset): (text: seq<Byte>)
    requires o.Shift? ==> o.hours <= 23 && o.minutes <= 59
  {
    match o
    case Zulu => [LETTER_Z]
    case Shift(plus, hours, colon, minutes) =>
      [if plus then PLUS else MINUS, Tens(hours), Units(hours)] + (if colon then [COLON] else []) +
      [Tens(minutes), Units(minutes)]
  }

  // Date and time to the second.
  function HeadText(s: Stamp): (text: seq<Byte>)
    requires ValidStamp(s)
    ensures |text| == 19
  {
    [Tens(s.date.year / 100), Units(s.date.year / 100), Tens(s.date.year % 100), Units(s.date.year), MINUS,
     Tens(s.date.month), Units(s.date.month), MINUS, Tens(s.date.day), Units(s.date.day), s.separator,
     Tens(s.hour), Units(s.hour), COLON, Tens(s.minute), Units(s.minute), COLON, Tens(s.second), Units(s.second)]
  }

  // Date, time, fraction and offset, as section 5.6 of RFC 3339 spells them.
  function StampText(s: Stamp): (text: seq<Byte>)
    requires ValidStamp(s)
  {
    HeadText(s) + FractionText(s.fraction) + OffsetText(s.offset)
  }

  function DigitValue(digit: Byte): (value: int) {
    digit - 0x30
  }

  function DigitsValue(digits: seq<Byte>): (value: int) {
    if digits == [] then 0 else DigitsValue(digits[..|digits| - 1]) * 10 + DigitValue(digits[|digits| - 1])
  }

  // What one unit in the last of the given number of fraction digits is worth.
  function Scale(digits: nat): (nanos: nat)
    requires digits <= 9
    ensures nanos > 0
  {
    [1_000_000_000, 100_000_000, 10_000_000, 1_000_000, 100_000, 10_000, 1_000, 100, 10, 1][digits]
  }

  function FractionNanos(fraction: seq<Byte>): (nanos: int)
    requires |fraction| <= 9
  {
    DigitsValue(fraction) * Scale(|fraction|)
  }

  function OffsetSeconds(o: Offset): (seconds: int) {
    match o
    case Zulu => 0
    case Shift(plus, hours, _, minutes) => (hours * 60 + minutes) * 60 * (if plus then 1 else -1)
  }

  function StampSeconds(s: Stamp): (seconds: int)
    requires ValidStamp(s)
  {
    DayNumber(s.date) * 86400 + s.hour * 3600 + s.minute * 60 + s.second - OffsetSeconds(s.offset)
  }

  // The instant a timestamp denotes, in nanoseconds from the epoch.
  function Instant(s: Stamp): (nanos: int)
    requires ValidStamp(s)
  {
    StampSeconds(s) * BILLION + FractionNanos(s.fraction)
  }

  ghost predicate Denotes(text: seq<Byte>, nanos: int) {
    exists s :: ValidStamp(s) && StampText(s) == text && Instant(s) == nanos
  }

  lemma {:induction false} FractionBound(fraction: seq<Byte>)
    requires |fraction| <= 9 && Digits(fraction)
    ensures 0 <= DigitsValue(fraction) && 0 <= FractionNanos(fraction) < BILLION
  {
    ValueBound(fraction);
    PowersAndScales(|fraction|);
    var v, p, s := DigitsValue(fraction), Power10(|fraction|), Scale(|fraction|);
    assert (p - v) * s >= s by {
      MulAtLeast(p - v, s);
    }
    assert v * s == p * s - (p - v) * s;
    if v > 0 {
      MulAtLeast(v, s);
    }
  }

  function Power10(n: nat): nat {
    if n == 0 then 1 else 10 * Power10(n - 1)
  }

  lemma PowersAndScales(digits: nat)
    requires digits <= 9
    ensures Power10(digits) * Scale(digits) == BILLION
  {
    assert Power10(3) == 1000 && Power10(6) == 1000 * Power10(3);
    assert Power10(9) == 1000 * Power10(6);
  }

  lemma {:induction false} ValueBound(digits: seq<Byte>)
    requires Digits(digits)
    ensures 0 <= DigitsValue(digits) < Power10(|digits|)
  {
    if digits != [] {
      ValueBound(digits[..|digits| - 1]);
    }
  }

  // ----- Reading a timestamp ----------------------------------------------------------

  function TwoAt(text: seq<Byte>, at: nat): (value: Option<nat>)
    ensures value.Some? ==> at + 2 <= |text| && value.value < 100 &&
                            text[at] == Tens(value.value) && text[at + 1] == Units(value.value)
  {
    if at + 2 <= |text| && IsDigit(text[at]) && IsDigit(text[at + 1]) then
      Some((text[at] - 0x30) * 10 + (text[at + 1] - 0x30))
    else None
  }

  lemma TwoReads(text: seq<Byte>, at: nat, n: nat)
    requires n < 100 && at + 2 <= |text| && text[at] == Tens(n) && text[at + 1] == Units(n)
    ensures TwoAt(text, at) == Some(n)
  {
  }

  // The colon of an offset is optional.
  function ColonEnd(text: seq<Byte>, at: nat): (next: nat) {
    if at < |text| && text[at] == COLON then at + 1 else at
  }

  function OffsetAt(text: seq<Byte>, at: nat): (offset: Option<Offset>)
    requires at <= |text|
  {
    if at < |text| && text[at] == LETTER_Z then
      if at + 1 == |text| then Some(Zulu) else None
    else if at == |text| || (text[at] != PLUS && text[at] != MINUS) then None
    else
      var hours, minutes := TwoAt(text, at + 1), TwoAt(text, ColonEnd(text, at + 3));
      if hours == None || minutes == None || ColonEnd(text, at + 3) + 2 != |text| then None
      else Some(Shift(text[at] == PLUS, hours.value, ColonEnd(text, at + 3) == at + 4, minutes.value))
  }

  function FractionStop(text: seq<Byte>): (next: Option<nat>)
    requires |text| >= 19
    ensures next.Some? ==> 19 <= next.value <= |text|
  {
    if |text| > 19 && text[19] == DOT then
      var next := SkipDigits(text, 20);
      if next == 20 || next > 29 then None else Some(next)
    else Some(19)
  }

  // The shape of a timestamp: digits where there must be digits, and the punctuation.
  predicate Shaped(text: seq<Byte>) {
    && |text| >= 20 && text[4] == MINUS && text[7] == MINUS
    && (text[10] == LETTER_T || text[10] == 0x20) && text[13] == COLON && text[16] == COLON
    && TwoAt(text, 0).Some? && TwoAt(text, 2).Some? && TwoAt(text, 5).Some? && TwoAt(text, 8).Some?
    && TwoAt(text, 11).Some? && TwoAt(text, 14).Some? && TwoAt(text, 17).Some?
    && FractionStop(text).Some? && OffsetAt(text, FractionStop(text).value).Some?
  }

  function DateAt(text: seq<Byte>): (date: Date)
    requires Shaped(text)
  {
    Date(TwoAt(text, 0).value * 100 + TwoAt(text, 2).value, TwoAt(text, 5).value, TwoAt(text, 8).value)
  }

  function StampAt(text: seq<Byte>): (s: Stamp)
    requires Shaped(text)
  {
    var stop := FractionStop(text).value;
    Stamp(DateAt(text), text[10], TwoAt(text, 11).value, TwoAt(text, 14).value, TwoAt(text, 17).value,
          if stop == 19 then [] else text[20..stop], OffsetAt(text, stop).value)
  }

  lemma OffsetSound(text: seq<Byte>, at: nat)
    requires at <= |text| && OffsetAt(text, at).Some?
    requires var o := OffsetAt(text, at).value; o.Shift? ==> o.hours <= 23 && o.minutes <= 59
    ensures text[at..] == OffsetText(OffsetAt(text, at).value)
  {
    var o := OffsetAt(text, at).value;
    if o.Shift? {
      var k := ColonEnd(text, at + 3);
      assert text[at..at + 3] == [text[at], text[at + 1], text[at + 2]];
      assert text[at + 3..k] == (if o.colon then [COLON] else []);
      assert text[k..] == [text[k], text[k + 1]];
      assert text[at..] == text[at..at + 3] + text[at + 3..k] + text[k..];
    } else {
      assert text[at..] == [LETTER_Z];
    }
  }

  lemma OffsetComplete(before: seq<Byte>, o: Offset)
    requires o.Shift? ==> o.hours <= 23 && o.minutes <= 59
    ensures OffsetAt(before + OffsetText(o), |before|) == Some(o)
  {
    var text, at := before + OffsetText(o), |before|;
    assert text[at] == OffsetText(o)[0];
    if o.Shift? {
      assert text[at + 1] == OffsetText(o)[1] && text[at + 2] == OffsetText(o)[2] && text[at + 3] == OffsetText(o)[3];
      TwoReads(text, at + 1, o.hours);
      ShiftComplete(text, at, o);
    }
  }

  lemma ShiftComplete(text: seq<Byte>, at: nat, o: Offset)
    requires o.Shift? && o.hours <= 23 && o.minutes <= 59
    requires at <= |text| && text[at..] == OffsetText(o)
    ensures ColonEnd(text, at + 3) == (if o.colon then at + 4 else at + 3)
    ensures ColonEnd(text, at + 3) + 2 == |text| && TwoAt(text, ColonEnd(text, at + 3)) == Some(o.minutes)
  {
    var k := if o.colon then at + 4 else at + 3;
    assert text[at..][3] == text[at + 3];
    assert text[at..][k - at] == text[k] && text[at..][k - at + 1] == text[k + 1];
    TwoReads(text, k, o.minutes);
  }

  lemma HeadSound(text: seq<Byte>)
    requires Shaped(text) && ValidStamp(StampAt(text))
    ensures text[..19] == HeadText(StampAt(text))
  {
    YearSplits(TwoAt(text, 0).value, TwoAt(text, 2).value);
    var head := HeadText(StampAt(text));
    forall k | 0 <= k < 19 ensures text[..19][k] == head[k] {
    }
  }

  lemma YearSplits(century: nat, short: nat)
    requires short < 100
    ensures (century * 100 + short) / 100 == century && (century * 100 + short) % 100 == short
    ensures (century * 100 + short) % 10 == short % 10
  {
    DivUnique(century * 100 + short, 100, century, short);
    DivUnique(century * 100 + short, 10, century * 10 + short / 10, short % 10);
  }

  // A shaped text with sensible values is the text of the timestamp read from it.
  lemma ShapedSound(text: seq<Byte>)
    requires Shaped(text) && ValidStamp(StampAt(text))
    ensures StampText(StampAt(text)) == text
  {
    var s, stop := StampAt(text), FractionStop(text).value;
    HeadSound(text);
    OffsetSound(text, stop);
    assert text[19..stop] == FractionText(s.fraction);
    assert text == text[..19] + text[19..stop] + text[stop..];
  }

  lemma FractionReads(head: seq<Byte>, fraction: seq<Byte>, offset: Offset)
    requires |head| == 19 && |fraction| <= 9 && Digits(fraction)
    requires offset.Shift? ==> offset.hours <= 23 && offset.minutes <= 59
    ensures var text := head + FractionText(fraction) + OffsetText(offset);
            |text| >= 20 && FractionStop(text) == Some(19 + |FractionText(fraction)|) &&
            (fraction != [] ==> text[20..20 + |fraction|] == fraction)
  {
    var text := head + FractionText(fraction) + OffsetText(offset);
    var stop := 19 + |FractionText(fraction)|;
    assert text[stop] == OffsetText(offset)[0];
    assert !IsDigit(text[stop]) && text[stop] != DOT;
    if fraction != [] {
      assert text[19..stop] == FractionText(fraction);
      assert text[19] == text[19..stop][0];
      assert text[20..stop] == text[19..stop][1..] == fraction;
      SpansSlice(text, 20, stop, fraction);
      DigitsComplete(text, 20, stop, fraction);
    }
  }

  lemma HeadReads(s: Stamp, text: seq<Byte>)
    requires ValidStamp(s) && |text| >= 19 && text[..19] == HeadText(s)
    ensures text[4] == MINUS && text[7] == MINUS && text[10] == s.separator && text[13] == COLON && text[16] == COLON
    ensures TwoAt(text, 0) == Some(s.date.year / 100) && TwoAt(text, 2) == Some(s.date.year % 100)
    ensures TwoAt(text, 5) == Some(s.date.month) && TwoAt(text, 8) == Some(s.date.day)
    ensures TwoAt(text, 11) == Some(s.hour) && TwoAt(text, 14) == Some(s.minute) && TwoAt(text, 17) == Some(s.second)
  {
    HeadReadsSigns(s, text);
    HeadReadsDate(s, text);
    HeadReadsTime(s, text);
  }

  lemma HeadReadsSigns(s: Stamp, text: seq<Byte>)
    requires ValidStamp(s) && |text| >= 19 && text[..19] == HeadText(s)
    ensures text[4] == MINUS && text[7] == MINUS && text[10] == s.separator && text[13] == COLON && text[16] == COLON
  {
    var head := HeadText(s);
    HeadByte(text, head, 4);
    HeadByte(text, head, 7);
    HeadByte(text, head, 10);
    HeadByte(text, head, 13);
    HeadByte(text, head, 16);
  }

  lemma HeadReadsDate(s: Stamp, text: seq<Byte>)
    requires ValidStamp(s) && |text| >= 19 && text[..19] == HeadText(s)
    ensures TwoAt(text, 0) == Some(s.date.year / 100) && TwoAt(text, 2) == Some(s.date.year % 100)
    ensures TwoAt(text, 5) == Some(s.date.month) && TwoAt(text, 8) == Some(s.date.day)
  {
    HeadReadsYear(s, text);
    HeadTwo(text, HeadText(s), 5, s.date.month);
    HeadTwo(text, HeadText(s), 8, s.date.day);
  }

  lemma HeadReadsYear(s: Stamp, text: seq<Byte>)
    requires ValidStamp(s) && |text| >= 19 && text[..19] == HeadText(s)
    ensures TwoAt(text, 0) == Some(s.date.year / 100) && TwoAt(text, 2) == Some(s.date.year % 100)
  {
    var century, short := s.date.year / 100, s.date.year % 100;
    YearSplits(century, short);
    assert s.date.year == century * 100 + short;
    HeadTwo(text, HeadText(s), 0, century);
    HeadTwo(text, HeadText(s), 2, short);
  }

  lemma HeadReadsTime(s: Stamp, text: seq<Byte>)
    requires ValidStamp(s) && |text| >= 19 && text[..19] == HeadText(s)
    ensures TwoAt(text, 11) == Some(s.hour) && TwoAt(text, 14) == Some(s.minute) && TwoAt(text, 17) == Some(s.second)
  {
    var head := HeadText(s);
    HeadTwo(text, head, 11, s.hour);
    HeadTwo(text, head, 14, s.minute);
    HeadTwo(text, head, 17, s.second);
  }

  lemma HeadByte(text: seq<Byte>, head: seq<Byte>, at: nat)
    requires |head| == 19 && |text| >= 19 && text[..19] == head && at < 19
    ensures text[at] == head[at]
  {
  }

  lemma HeadTwo(text: seq<Byte>, head: seq<Byte>, at: nat, n: nat)
    requires |head| == 19 && |text| >= 19 && text[..19] == head && at + 1 < 19
    requires n < 100 && head[at] == Tens(n) && head[at + 1] == Units(n)
    ensures TwoAt(text, at) == Some(n)
  {
    HeadByte(text, head, at);
    HeadByte(text, head, at + 1);
    TwoReads(text, at, n);
  }

  // The text of a timestamp is shaped, and reads back as that timestamp.
  lemma ShapedComplete(s: Stamp)
    requires ValidStamp(s)
    ensures Shaped(StampText(s)) && StampAt(StampText(s)) == s
  {
    var text := StampText(s);
    assert text[..19] == HeadText(s);
    HeadReads(s, text);
    FractionReads(HeadText(s), s.fraction, s.offset);
    OffsetComplete(HeadText(s) + FractionText(s.fraction), s.offset);
  }

  // The reading of a text, if it is a timestamp at all.
  ghost function Reading(text: seq<Byte>): (nanos: Option<int>) {
    if Shaped(text) && ValidStamp(StampAt(text)) && 0 <= Instant(StampAt(text)) <= MAX_INT64
    then Some(Instant(StampAt(text))) else None
  }

  // A text is read exactly when it denotes an instant that 64 bits hold, and its reading
  // is that instant.
  lemma ReadingIsInstant(text: seq<Byte>, nanos: int)
    ensures Reading(text) == Some(nanos) <==> Denotes(text, nanos) && 0 <= nanos <= MAX_INT64
  {
    if Reading(text) == Some(nanos) {
      ShapedSound(text);
    }
    if Denotes(text, nanos) {
      var s :| ValidStamp(s) && StampText(s) == text && Instant(s) == nanos;
      ShapedComplete(s);
    }
  }

  // The days from the epoch to a year, summed year by year.
  method DaysToYear(year: nat) returns (days: int)
    requires year >= 1970
    ensures days == 365 * (year - 1970) + LeapsBefore(year) - LeapsBefore(1970)
  {
    days := 0;
    for current := 1970 to year
      invariant days == 365 * (current - 1970) + LeapsBefore(current) - LeapsBefore(1970)
    {
      LeapStep(current);
      days := days + 365 + (if Leap(current) then 1 else 0);
    }
  }

  // The days of a year before a month, summed month by month.
  method DaysToMonth(year: nat, month: nat) returns (days: int)
    requires 1 <= month <= 12
    ensures days == DaysBeforeMonth(year, month)
  {
    days := 0;
    for current := 1 to month
      invariant days == DaysBeforeMonth(year, current)
    {
      days := days + MONTH_DAYS[current - 1] + (if current == 2 && Leap(year) then 1 else 0);
    }
  }

  // The fraction after its point, accumulated digit by digit.
  method Fraction(text: seq<Byte>) returns (ok: bool, nanos: int, position: nat)
    requires |text| >= 20
    ensures ok == FractionStop(text).Some?
    ensures ok ==> position == FractionStop(text).value
    ensures ok ==> nanos == (if position == 19 then 0 else FractionNanos(text[20..position]))
  {
    position, nanos := 19, 0;
    var factor := 100_000_000;
    if position < |text| && text[position] == DOT {
      position := position + 1;
      while position < |text| && IsDigit(text[position])
        invariant 20 <= position <= |text| && position <= 29
        invariant SkipDigits(text, position) == SkipDigits(text, 20)
        invariant nanos == FractionNanos(text[20..position])
        invariant factor == (if position < 29 then Scale(position - 19) else 0)
      {
        if position - 20 >= 9 {
          return false, nanos, position;
        }
        FractionStep(text[20..position], text[position]);
        assert text[20..position] + [text[position]] == text[20..position + 1];
        nanos := nanos + DigitValue(text[position]) * factor;
        position := position + 1;
        factor := factor / 10;
      }
      if position == 20 {
        return false, nanos, position;
      }
    }
    ok := true;
  }

  lemma FractionStep(fraction: seq<Byte>, digit: Byte)
    requires |fraction| < 9
    ensures FractionNanos(fraction + [digit]) == FractionNanos(fraction) + DigitValue(digit) * Scale(|fraction| + 1)
  {
    var more := fraction + [digit];
    assert more[..|fraction|] == fraction;
    var v, d, scale := DigitsValue(fraction), DigitValue(digit), Scale(|fraction| + 1);
    assert Scale(|fraction|) == 10 * scale;
    assert (v * 10 + d) * scale == v * (10 * scale) + d * scale;
  }

  // The offset that ends a timestamp, in seconds east of Greenwich.
  method OffsetOf(text: seq<Byte>, at: nat) returns (ok: bool, seconds: int)
    requires at <= |text|
    ensures ok <==> OffsetAt(text, at).Some? &&
                    (OffsetAt(text, at).value.Shift? ==>
                       OffsetAt(text, at).value.hours <= 23 && OffsetAt(text, at).value.minutes <= 59)
    ensures ok ==> seconds == OffsetSeconds(OffsetAt(text, at).value)
  {
    ok, seconds := false, 0;
    var position := at;
    if position < |text| && text[position] == LETTER_Z {
      position := position + 1;
    } else {
      if position >= |text| || (text[position] != PLUS && text[position] != MINUS) {
        return;
      }
      var positive := text[position] == PLUS;
      position := position + 1;
      var hours := TwoAt(text, position);
      position := position + 2;
      if position < |text| && text[position] == COLON {
        position := position + 1;
      }
      var minutes := TwoAt(text, position);
      position := position + 2;
      if hours == None || minutes == None || hours.value > 23 || minutes.value > 59 {
        return;
      }
      var span: int := (hours.value * 60 + minutes.value) * 60;
      seconds := if positive then span else -span;
    }
    ok := position == |text|;
  }

  predicate HeadShaped(text: seq<Byte>) {
    && |text| >= 20 && text[4] == MINUS && text[7] == MINUS
    && (text[10] == LETTER_T || text[10] == 0x20) && text[13] == COLON && text[16] == COLON
  }

  // native_timestamp.
  method NativeTimestamp(text: seq<Byte>) returns (nanos: Option<int>)
    ensures nanos == Reading(text)
  {
    if !HeadShaped(text) {
      return None;
    }
    var century, year2, month, day := TwoAt(text, 0), TwoAt(text, 2), TwoAt(text, 5), TwoAt(text, 8);
    var hour, minute, second := TwoAt(text, 11), TwoAt(text, 14), TwoAt(text, 17);
    if century == None || year2 == None || month == None || day == None ||
       hour == None || minute == None || second == None {
      return None;
    }
    var date := Date(century.value * 100 + year2.value, month.value, day.value);
    if date.year < 1970 || date.year > 2262 || date.month < 1 || date.month > 12 ||
       hour.value > 23 || minute.value > 59 || second.value > 59 {
      return None;
    }
    if date.day < 1 || date.day > MonthDays(date.year, date.month) {
      return None;
    }
    var days := DaysTo(date);
    var ok, fraction, position := Fraction(text);
    if !ok {
      return None;
    }
    var offset;
    ok, offset := OffsetOf(text, position);
    if !ok {
      return None;
    }
    ghost var stamp := StampAt(text);
    assert stamp.date == date && stamp.hour == hour.value;
    assert stamp.minute == minute.value && stamp.second == second.value;
    StampFits(text);
    var seconds := days * 86400 + hour.value * 3600 + minute.value * 60 + second.value - offset;
    nanos := Checked(text, seconds, fraction);
  }

  lemma StampFits(text: seq<Byte>)
    requires Shaped(text)
    ensures var s := StampAt(text); |s.fraction| <= 9 && Digits(s.fraction)
  {
    if FractionStop(text).value > 19 {
      var digits := DigitsSound(text, 20);
      SpansSlice(text, 20, SkipDigits(text, 20), digits);
    }
  }

  method DaysTo(date: Date) returns (days: int)
    requires ValidDate(date)
    ensures days == DayNumber(date)
  {
    var years := DaysToYear(date.year);
    var months := DaysToMonth(date.year, date.month);
    days := years + months + (date.day - 1);
  }

  // The bound check that keeps the nanoseconds within 64 bits.
  method Checked(text: seq<Byte>, seconds: int, fraction: int) returns (nanos: Option<int>)
    requires Shaped(text) && ValidStamp(StampAt(text))
    requires seconds == StampSeconds(StampAt(text)) && fraction == FractionNanos(StampAt(text).fraction)
    ensures nanos == Reading(text)
  {
    FractionBound(StampAt(text).fraction);
    if seconds < 0 || seconds > (MAX_INT64 - fraction) / BILLION {
      return None;
    }
    return Some(seconds * BILLION + fraction);
  }
}
