/**
 The texts of a report: decimal digits, byte counts scaled to a unit and rounded to
 a tenth, frequencies and durations, all in integers of 64 bits.
 */
module ReportFormat {
  import opened Arithmetic

  const TWO_64: nat := 0x1_0000_0000_0000_0000
  const NOT_REPORTED := "not reported"

  // ----- Decimal digits ---------------------------------------------------------------

  predicate IsDigit(c: char) {
    '0' <= c <= '9'
  }

  predicate AllDigits(text: string) {
    forall i :: 0 <= i < |text| ==> IsDigit(text[i])
  }

  function DigitOf(n: nat): (c: char)
    requires n < 10
    ensures IsDigit(c)
  {
    '0' + n as char
  }

  function Decimal(n: nat): (text: string)
    decreases n
  {
    if n < 10 then [DigitOf(n)] else Decimal(n / 10) + [DigitOf(n % 10)]
  }

  // What a run of digits stands for.
  function Number(text: string): (n: nat)
    requires AllDigits(text)
  {
    if text == "" then 0 else Number(text[..|text| - 1]) * 10 + (text[|text| - 1] as nat - '0' as nat)
  }

  // A plain numeral: digits, and a leading zero only in zero itself.
  predicate Numeral(text: string) {
    text != "" && AllDigits(text) && (text[0] == '0' ==> |text| == 1)
  }

  lemma {:induction false} DecimalReadsBack(n: nat)
    ensures Numeral(Decimal(n)) && Number(Decimal(n)) == n
    ensures n > 0 ==> Decimal(n)[0] != '0'
    decreases n
  {
    if n >= 10 {
      DecimalReadsBack(n / 10);
      assert Decimal(n)[..|Decimal(n)| - 1] == Decimal(n / 10);
    }
  }

  // And the only numeral that does.
  lemma {:induction false} OneNumeral(text: string)
    requires Numeral(text)
    ensures Decimal(Number(text)) == text
    decreases |text|
  {
    var init, last := text[..|text| - 1], text[|text| - 1];
    if |text| > 1 {
      OneNumeral(init);
      NumeralIsPositive(init);
      DecimalAppends(Number(init), last as nat - '0' as nat);
      assert text == init + [last];
    } else {
      assert init == "" && text == [last];
    }
  }

  lemma DecimalAppends(n: nat, digit: nat)
    requires n > 0 && digit < 10
    ensures Decimal(n * 10 + digit) == Decimal(n) + [DigitOf(digit)]
  {
    DivUnique(n * 10 + digit, 10, n, digit);
  }

  lemma {:induction false} NumeralIsPositive(text: string)
    requires text != "" && AllDigits(text) && text[0] != '0'
    ensures Number(text) > 0
    decreases |text|
  {
    if |text| > 1 {
      NumeralIsPositive(text[..|text| - 1]);
    }
  }

  lemma {:induction false} DecimalLength(n: nat, digits: nat)
    requires digits > 0 && n < Power(10, digits)
    ensures |Decimal(n)| <= digits
    decreases digits
  {
    if n >= 10 {
      assert digits > 1 by {
        assert Power(10, 1) == 10 * Power(10, 0);
      }
      assert Power(10, digits) == 10 * Power(10, digits - 1);
      DecimalLength(n / 10, digits - 1);
    }
  }

  function Power(base: nat, exponent: nat): (p: nat) {
    if exponent == 0 then 1 else base * Power(base, exponent - 1)
  }

  lemma PowerSum(base: nat, a: nat, b: nat)
    ensures Power(base, a + b) == Power(base, a) * Power(base, b)
  {
    if a > 0 {
      PowerSum(base, a - 1, b);
      assert base * Power(base, a - 1) * Power(base, b) == base * (Power(base, a - 1) * Power(base, b));
    }
  }

  lemma TenToTwenty()
    ensures Power(10, 20) == 100_000_000_000_000_000_000 > TWO_64
  {
    assert Power(10, 1) == 10 * Power(10, 0) == 10;
    assert Power(10, 2) == 10 * Power(10, 1) == 100;
    assert Power(10, 3) == 10 * Power(10, 2) == 1_000;
    assert Power(10, 4) == 10 * Power(10, 3) == 10_000;
    assert Power(10, 5) == 10 * Power(10, 4) == 100_000;
    PowerSum(10, 5, 5);
    PowerSum(10, 10, 10);
  }

  // The digits that are still to be written.
  function Unwritten(n: nat): (text: string) {
    if n == 0 then "" else Decimal(n)
  }

  lemma LastDigit(n: nat, tail: string)
    requires n > 0
    ensures Unwritten(n) + tail == Unwritten(n / 10) + ([DigitOf(n % 10)] + tail)
    ensures |Unwritten(n)| == |Unwritten(n / 10)| + 1
  {
    assert Unwritten(n) == Unwritten(n / 10) + [DigitOf(n % 10)];
  }

  // decimal_digits: from the last digit backwards, in a buffer that is always large enough.
  method DecimalDigits(value: nat) returns (text: string)
    requires value < TWO_64
    ensures text == Decimal(value)
  {
    if value == 0 {
      return "0";
    }
    var buffer := new char[24];
    var index, rest := 24, value;
    TenToTwenty();
    DecimalLength(value, 20);
    while rest != 0 && index > 0
      invariant 0 <= index <= 24
      invariant Decimal(value) == Unwritten(rest) + buffer[index..] && |Unwritten(rest)| + 24 - index <= 20
      decreases rest
    {
      ghost var tail := buffer[index..];
      LastDigit(rest, tail);
      index := index - 1;
      buffer[index] := DigitOf(rest % 10);
      assert buffer[index..] == [DigitOf(rest % 10)] + tail;
      rest := rest / 10;
    }
    text := buffer[index..];
  }

  function TwoDigits(n: nat): (text: string) {
    if |Decimal(n)| >= 2 then Decimal(n) else "0" + Decimal(n)
  }

  // ----- Scaling ----------------------------------------------------------------------

  datatype Scaled = Scaled(whole: nat, tenths: nat)

  function InTenths(s: Scaled): (tenths: nat) {
    s.whole * 10 + s.tenths
  }

  // The nearest number of tenths, the larger one of two that are equally near.
  function Nearest(value: nat, divisor: nat): (tenths: nat)
    requires divisor > 0
  {
    Quotient(value * 10 + divisor / 2, divisor)
  }

  // The tenths of what a division leaves over.
  function TenthsOf(remainder: nat, divisor: nat): (tenths: nat)
    requires divisor > 0
  {
    Quotient(remainder * 10 + divisor / 2, divisor)
  }

  function ScaleWithTenth(value: nat, divisor: nat): (scaled: Scaled)
    requires divisor > 0
  {
    var tenths := TenthsOf(Remainder(value, divisor), divisor);
    if tenths >= 10 then Scaled(Quotient(value, divisor) + 1, 0) else Scaled(Quotient(value, divisor), tenths)
  }

  lemma TensOf(q: nat, tenths: nat, d: nat)
    ensures (q * 10 + tenths) * d == q * d * 10 + tenths * d
  {
  }

  lemma TenthsBound(r: nat, d: nat)
    requires r < d
    ensures TenthsOf(r, d) <= 10
  {
    QuotientAtLeast(r * 10 + d / 2, d, 11);
  }

  lemma Tenths(q: nat, r: nat, d: nat)
    requires r < d
    ensures Nearest(q * d + r, d) == q * 10 + TenthsOf(r, d)
    ensures TenthsOf(r, d) <= 10
  {
    TenthsBound(r, d);
    NearestIs(q * d + r, q, r, d);
  }

  lemma NearestIs(value: nat, q: nat, r: nat, d: nat)
    requires r < d && value == q * d + r
    ensures Nearest(value, d) == q * 10 + TenthsOf(r, d)
  {
    var n := r * 10 + d / 2;
    QuotientTimes(n, d);
    TensOf(q, Quotient(n, d), d);
    Regrouped(q * d, r, d / 2, Quotient(n, d) * d, Remainder(n, d));
    QuotientIs(value * 10 + d / 2, d, q * 10 + Quotient(n, d), Remainder(n, d));
  }

  lemma Regrouped(whole: nat, r: nat, half: nat, tenths: nat, rest: nat)
    requires r * 10 + half == tenths + rest
    ensures (whole + r) * 10 + half == whole * 10 + tenths + rest
  {
  }

  // Scaling gives the nearest tenth, one decimal digit of it behind the point.
  lemma ScaleIsNearest(value: nat, divisor: nat)
    requires divisor > 0
    ensures InTenths(ScaleWithTenth(value, divisor)) == Nearest(value, divisor)
    ensures ScaleWithTenth(value, divisor).tenths < 10
  {
    QuotientTimes(value, divisor);
    Tenths(Quotient(value, divisor), Remainder(value, divisor), divisor);
  }

  // The nearest tenth is at most half a tenth away.
  lemma NearestIsClose(value: nat, divisor: nat)
    requires divisor > 0
    ensures 2 * (10 * value - Nearest(value, divisor) * divisor) <= divisor
    ensures 2 * (Nearest(value, divisor) * divisor - 10 * value) <= divisor
  {
    QuotientTimes(value * 10 + divisor / 2, divisor);
  }

  // ----- Byte counts ------------------------------------------------------------------

  const UNITS: seq<string> := ["B", "KiB", "MiB", "GiB", "TiB", "PiB", "EiB"]
  const LAST_UNIT := 6

  // A byte count as it is shown: the tenths of a unit.
  datatype Shown = Shown(unit: nat, scaled: Scaled)

  function UnitSize(unit: nat): (size: nat)
    ensures size > 0
  {
    if unit == 0 then 1 else 1024 * UnitSize(unit - 1)
  }

  lemma UnitSizes()
    ensures UnitSize(0) == 1 && UnitSize(1) == 1024 && UnitSize(2) == 1048576 && UnitSize(3) == 1073741824
    ensures UnitSize(4) == 0x100_0000_0000 && UnitSize(5) == 0x4_0000_0000_0000 && UnitSize(6) == 0x1000_0000_0000_0000
  {
    assert UnitSize(1) == 1024 * UnitSize(0);
    assert UnitSize(2) == 1024 * UnitSize(1);
    assert UnitSize(3) == 1024 * UnitSize(2);
    assert UnitSize(4) == 1024 * UnitSize(3);
    assert UnitSize(5) == 1024 * UnitSize(4);
    assert UnitSize(6) == 1024 * UnitSize(5);
  }

  // The largest unit of which there is at least one, from a given unit on.
  function Fit(bytes: nat, unit: nat): (fit: nat)
    requires unit <= LAST_UNIT
    ensures unit <= fit <= LAST_UNIT
    decreases LAST_UNIT - unit
  {
    if unit < LAST_UNIT && bytes >= UnitSize(unit + 1) then Fit(bytes, unit + 1) else unit
  }

  // The unit that is shown: the next one when rounding would give 1024 of a unit.
  function UnitOf(bytes: nat): (unit: nat)
    ensures unit <= LAST_UNIT
  {
    var fit := Fit(bytes, 0);
    if fit < LAST_UNIT && Nearest(bytes, UnitSize(fit)) >= 10240 then fit + 1 else fit
  }

  function Show(bytes: nat): (shown: Shown) {
    Shown(UnitOf(bytes), ScaleWithTenth(bytes, UnitSize(UnitOf(bytes))))
  }

  function TextOf(shown: Shown): (text: string)
    requires shown.unit <= LAST_UNIT
  {
    (if shown.unit == 0 then Decimal(shown.scaled.whole)
     else Decimal(shown.scaled.whole) + "." + Decimal(shown.scaled.tenths)) + " " + UNITS[shown.unit]
  }

  // Every product and sum on the way fits 64 bits.
  lemma NoOverflow(bytes: nat, unit: nat)
    requires bytes < TWO_64 && unit <= LAST_UNIT
    ensures UnitSize(unit) < TWO_64
    ensures Remainder(bytes, UnitSize(unit)) * 10 + UnitSize(unit) / 2 < TWO_64
  {
    UnitSizes();
  }

  // scale_with_tenth.
  method Scale(value: nat, divisor: nat) returns (scaled: Scaled)
    requires divisor > 0 && value < TWO_64
    ensures scaled == ScaleWithTenth(value, divisor)
  {
    scaled := Scaled(Quotient(value, divisor), TenthsOf(Remainder(value, divisor), divisor));
    if scaled.tenths >= 10 {
      scaled := Scaled(scaled.whole + 1, 0);
    }
  }

  lemma {:induction false} FitIsLargest(bytes: nat, unit: nat)
    requires unit <= LAST_UNIT && (unit > 0 ==> UnitSize(unit) <= bytes)
    ensures var fit := Fit(bytes, unit);
            && (fit > 0 ==> UnitSize(fit) <= bytes)
            && (fit < LAST_UNIT ==> bytes < UnitSize(fit + 1))
    decreases LAST_UNIT - unit
  {
    if unit < LAST_UNIT && bytes >= UnitSize(unit + 1) {
      FitIsLargest(bytes, unit + 1);
    }
  }

  // Rounding reaches 1024 of a unit only just below the next one, of which it is then one.
  lemma PromotedIsOne(bytes: nat, fit: nat)
    requires fit < LAST_UNIT && bytes < UnitSize(fit + 1) && Nearest(bytes, UnitSize(fit)) >= 10240
    ensures Nearest(bytes, UnitSize(fit + 1)) == 10
  {
    var d, e := UnitSize(fit), UnitSize(fit + 1);
    assert e == 1024 * d;
    QuotientAtLeast(bytes * 10 + d / 2, d, 10240);
    QuotientAtLeast(bytes * 10 + e / 2, e, 10);
    QuotientAtLeast(bytes * 10 + e / 2, e, 11);
  }

  lemma WholeAtLeast(value: nat, divisor: nat, n: nat)
    requires divisor > 0
    ensures ScaleWithTenth(value, divisor).whole >= n <==> Nearest(value, divisor) >= 10 * n
    ensures Nearest(value, divisor) >= 10 * n <==> value * 10 + divisor / 2 >= 10 * n * divisor
  {
    ScaleIsNearest(value, divisor);
    QuotientAtLeast(value * 10 + divisor / 2, divisor, 10 * n);
  }

  // Less than 1024 of a unit is shown, and at least one of any unit but the byte.
  lemma ShownBounds(bytes: nat)
    ensures Show(bytes).unit < LAST_UNIT ==> Show(bytes).scaled.whole < 1024
    ensures Show(bytes).unit > 0 ==> Show(bytes).scaled.whole >= 1
    ensures bytes < TWO_64 ==> Show(bytes).scaled.whole < 1024
  {
    var fit := Fit(bytes, 0);
    FitIsLargest(bytes, 0);
    WholeAtLeast(bytes, UnitSize(UnitOf(bytes)), 1);
    WholeAtLeast(bytes, UnitSize(UnitOf(bytes)), 1024);
    if UnitOf(bytes) != fit {
      PromotedIsOne(bytes, fit);
    } else if fit == LAST_UNIT {
      UnitSizes();
    }
  }

  lemma BytesAreExact(bytes: nat)
    ensures ScaleWithTenth(bytes, 1) == Scaled(bytes, 0)
  {
    QuotientIs(bytes, 1, bytes, 0);
    QuotientIs(0, 1, 0, 0);
    assert TenthsOf(0, 1) == Quotient(0, 1);
  }

  // The value shown is within half a tenth of its unit, and exact in bytes.
  lemma ShownIsClose(bytes: nat)
    ensures var shown, size := Show(bytes), UnitSize(Show(bytes).unit);
            && shown.scaled.tenths < 10
            && 2 * (10 * bytes - InTenths(shown.scaled) * size) <= size
            && 2 * (InTenths(shown.scaled) * size - 10 * bytes) <= size
            && (shown.unit == 0 ==> shown.scaled == Scaled(bytes, 0))
  {
    var size := UnitSize(UnitOf(bytes));
    ScaleIsNearest(bytes, size);
    NearestIsClose(bytes, size);
    BytesAreExact(bytes);
  }

  // More bytes never show as less.
  ghost predicate ShowsNoLess(a: Shown, b: Shown) {
    a.unit < b.unit || (a.unit == b.unit && InTenths(a.scaled) <= InTenths(b.scaled))
  }

  lemma {:induction false} FitGrows(a: nat, b: nat, unit: nat)
    requires a <= b && unit <= LAST_UNIT
    ensures Fit(a, unit) <= Fit(b, unit)
    decreases LAST_UNIT - unit
  {
    if unit < LAST_UNIT && a >= UnitSize(unit + 1) {
      FitGrows(a, b, unit + 1);
    }
  }

  lemma NearestGrows(a: nat, b: nat, divisor: nat)
    requires a <= b && divisor > 0
    ensures Nearest(a, divisor) <= Nearest(b, divisor)
  {
    QuotientTimes(a * 10 + divisor / 2, divisor);
    QuotientAtLeast(b * 10 + divisor / 2, divisor, Nearest(a, divisor));
  }

  lemma UnitGrows(a: nat, b: nat)
    requires a <= b
    ensures UnitOf(a) <= UnitOf(b)
  {
    FitGrows(a, b, 0);
    NearestGrows(a, b, UnitSize(Fit(a, 0)));
  }

  lemma ShownGrows(a: nat, b: nat)
    requires a <= b
    ensures ShowsNoLess(Show(a), Show(b))
  {
    UnitGrows(a, b);
    if UnitOf(a) == UnitOf(b) {
      var size := UnitSize(UnitOf(a));
      NearestGrows(a, b, size);
      ScaleIsNearest(a, size);
      ScaleIsNearest(b, size);
    }
  }

  // The loop that finds the unit.
  method FindUnit(bytes: nat) returns (unit: nat, divisor: nat)
    ensures unit == Fit(bytes, 0) && divisor == UnitSize(unit)
  {
    divisor, unit := 1, 0;
    while unit + 1 < |UNITS| && Quotient(bytes, divisor) >= 1024
      invariant unit <= LAST_UNIT && divisor == UnitSize(unit) && Fit(bytes, unit) == Fit(bytes, 0)
      decreases |UNITS| - unit
    {
      QuotientAtLeast(bytes, divisor, 1024);
      divisor, unit := divisor * 1024, unit + 1;
    }
    QuotientAtLeast(bytes, divisor, 1024);
  }

  // format_bytes, before it becomes a text.
  method ShowBytes(bytes: nat) returns (shown: Shown)
    requires bytes < TWO_64
    ensures shown == Show(bytes)
  {
    var unit, divisor := FindUnit(bytes);
    if unit == 0 {
      ByteShown(bytes);
      return Shown(0, Scaled(bytes, 0));
    }
    var scaled := Scale(bytes, divisor);
    CarryIsPromotion(bytes, unit);
    if scaled.whole >= 1024 && unit + 1 < |UNITS| {
      divisor, unit := divisor * 1024, unit + 1;
      scaled := Scale(bytes, divisor);
    }
    return Shown(unit, scaled);
  }

  lemma CarryIsPromotion(bytes: nat, fit: nat)
    requires fit == Fit(bytes, 0)
    ensures UnitOf(bytes) ==
            if fit < LAST_UNIT && ScaleWithTenth(bytes, UnitSize(fit)).whole >= 1024 then fit + 1 else fit
  {
    ScaleIsNearest(bytes, UnitSize(fit));
  }

  lemma ByteShown(bytes: nat)
    requires Fit(bytes, 0) == 0
    ensures Show(bytes) == Shown(0, Scaled(bytes, 0))
  {
    FitIsLargest(bytes, 0);
    UnitSizes();
    WholeAtLeast(bytes, 1, 1024);
    BytesAreExact(bytes);
  }

  // format_bytes.
  method FormatBytes(bytes: nat) returns (text: string)
    requires bytes < TWO_64
    ensures text == TextOf(Show(bytes))
  {
    var shown := ShowBytes(bytes);
    ShownBounds(bytes);
    var whole := DecimalDigits(shown.scaled.whole);
    if shown.unit == 0 {
      return whole + " B";
    }
    var tenths := DecimalDigits(shown.scaled.tenths);
    return whole + "." + tenths + " " + UNITS[shown.unit];
  }

  // Reading a byte count back: a unit of one letter or of three stands behind the last blank.
  function ReadBytes(text: string): (shown: Shown) {
    if |text| >= 2 && text[|text| - 2] == ' ' then Shown(0, Scaled(DigitsOf(text[..|text| - 2]), 0))
    else if |text| < 6 then Shown(0, Scaled(0, 0))
    else
      var head := text[..|text| - 4];
      Shown(UnitNamed(text[|text| - 3]), Scaled(DigitsOf(head[..|head| - 2]), DigitsOf(head[|head| - 1..])))
  }

  function UnitNamed(letter: char): (unit: nat)
    ensures unit <= LAST_UNIT
  {
    match letter
    case 'K' => 1
    case 'M' => 2
    case 'G' => 3
    case 'T' => 4
    case 'P' => 5
    case 'E' => 6
    case _ => 0
  }

  lemma OneDigit(n: nat)
    requires n < 10
    ensures |Decimal(n)| == 1
  {
  }

  // What is shown of a byte count can be read back from its text.
  lemma BytesReadBack(bytes: nat)
    ensures ReadBytes(TextOf(Show(bytes))) == Show(bytes)
  {
    var shown := Show(bytes);
    var text := TextOf(shown);
    ShownIsClose(bytes);
    DecimalReadsBack(shown.scaled.whole);
    if shown.unit == 0 {
      assert text[..|text| - 2] == Decimal(shown.scaled.whole);
    } else {
      DecimalReadsBack(shown.scaled.tenths);
      OneDigit(shown.scaled.tenths);
      UnitsAreNamed(shown.unit);
      var head := Decimal(shown.scaled.whole) + "." + Decimal(shown.scaled.tenths);
      assert text == head + " " + UNITS[shown.unit];
      assert text[..|text| - 4] == head;
      assert head[..|head| - 2] == Decimal(shown.scaled.whole) && head[|head| - 1..] == Decimal(shown.scaled.tenths);
    }
  }

  lemma UnitsAreNamed(unit: nat)
    requires 1 <= unit <= LAST_UNIT
    ensures |UNITS[unit]| == 3 && UnitNamed(UNITS[unit][0]) == unit && UNITS[unit][1..] == "iB"
  {
  }

  // ----- Durations --------------------------------------------------------------------

  function Clock(hours: nat, minutes: nat, seconds: nat): (text: string) {
    TwoDigits(hours) + ":" + TwoDigits(minutes) + ":" + TwoDigits(seconds)
  }

  function FormatDuration(seconds: int): (text: string) {
    if seconds < 0 then NOT_REPORTED
    else
      var clock := Clock(seconds % 86400 / 3600, seconds % 3600 / 60, seconds % 60);
      if seconds / 86400 > 0 then Decimal(seconds / 86400) + "d " + clock else clock
  }

  // Reading a duration back: the clock is the last eight characters, days come before it.
  function ReadDuration(text: string): (seconds: int) {
    if |text| < 8 then -1
    else
      var clock, head := text[|text| - 8..], text[..|text| - 8];
      var days := if head == "" then 0 else if |head| >= 2 then DigitsOf(head[..|head| - 2]) else 0;
      days * 86400 + DigitsOf(clock[0..2]) * 3600 + DigitsOf(clock[3..5]) * 60 + DigitsOf(clock[6..8])
  }

  function DigitsOf(text: string): (n: nat) {
    if AllDigits(text) then Number(text) else 0
  }

  lemma TwoDigitsReadBack(n: nat)
    requires n < 100
    ensures |TwoDigits(n)| == 2 && DigitsOf(TwoDigits(n)) == n
  {
    DecimalReadsBack(n);
    assert Power(10, 2) == 10 * Power(10, 1) && Power(10, 1) == 10 * Power(10, 0);
    DecimalLength(n, 2);
    if |Decimal(n)| == 1 {
      var text := "0" + Decimal(n);
      assert text[..1] == "0" && Decimal(n)[..0] == "";
      assert Number("0") == 0 by {
        assert "0"[..0] == "";
      }
    }
  }

  lemma ClockReadsBack(hours: nat, minutes: nat, seconds: nat)
    requires hours < 100 && minutes < 100 && seconds < 100
    ensures var clock := Clock(hours, minutes, seconds);
            && |clock| == 8 && DigitsOf(clock[0..2]) == hours && DigitsOf(clock[3..5]) == minutes
            && DigitsOf(clock[6..8]) == seconds
  {
    TwoDigitsReadBack(hours);
    TwoDigitsReadBack(minutes);
    TwoDigitsReadBack(seconds);
    var clock := Clock(hours, minutes, seconds);
    assert clock[0..2] == TwoDigits(hours) && clock[3..5] == TwoDigits(minutes) && clock[6..8] == TwoDigits(seconds);
  }

  lemma PartsAddUp(seconds: nat)
    ensures seconds / 86400 * 86400 + seconds % 86400 / 3600 * 3600 + seconds % 3600 / 60 * 60 + seconds % 60 == seconds
    ensures seconds % 86400 / 3600 < 24 && seconds % 3600 / 60 < 60
  {
    var days := seconds / 86400;
    var afterDays := seconds - days * 86400;
    var hours := afterDays / 3600;
    var afterHours := afterDays - hours * 3600;
    var minutes := afterHours / 60;
    ClockParts(days, hours, minutes, afterHours - minutes * 60);
  }

  lemma ClockParts(days: nat, hours: nat, minutes: nat, rest: nat)
    requires hours < 24 && minutes < 60 && rest < 60
    ensures var seconds := days * 86400 + hours * 3600 + minutes * 60 + rest;
            && seconds / 86400 == days && seconds % 86400 / 3600 == hours
            && seconds % 3600 / 60 == minutes && seconds % 60 == rest
  {
    var seconds := days * 86400 + hours * 3600 + minutes * 60 + rest;
    DivUnique(seconds, 86400, days, hours * 3600 + minutes * 60 + rest);
    DivUnique(hours * 3600 + minutes * 60 + rest, 3600, hours, minutes * 60 + rest);
    DivUnique(seconds, 3600, days * 24 + hours, minutes * 60 + rest);
    DivUnique(minutes * 60 + rest, 60, minutes, rest);
    DivUnique(seconds, 60, days * 1440 + hours * 60 + minutes, rest);
  }

  // Every duration that is not negative can be read back from its text.
  lemma DurationReadsBack(seconds: int)
    requires seconds >= 0
    ensures ReadDuration(FormatDuration(seconds)) == seconds
  {
    var days, hours, minutes, rest := seconds / 86400, seconds % 86400 / 3600, seconds % 3600 / 60, seconds % 60;
    var clock, text := Clock(hours, minutes, rest), FormatDuration(seconds);
    ClockReadsBack(hours, minutes, rest);
    PartsAddUp(seconds);
    if days > 0 {
      DecimalReadsBack(days);
      var head := Decimal(days) + "d ";
      assert text[|text| - 8..] == clock && text[..|text| - 8] == head;
      assert head[..|head| - 2] == Decimal(days);
    } else {
      assert text[|text| - 8..] == clock && text[..|text| - 8] == "";
    }
  }
}
