/**
 Comparing timestamps as byte strings: section 5.1 of RFC 3339 intends texts of one
 format in the same zone to sort as the instants they denote.
 */
module TimestampOrder {
  import opened Arithmetic
  import opened Utf8
  import opened JsonGrammar
  import opened Timestamp

  // The order in which byte strings sort.
  predicate Before(a: seq<Byte>, b: seq<Byte>) {
    b != [] && (a == [] || a[0] < b[0] || (a[0] == b[0] && Before(a[1..], b[1..])))
  }

  lemma {:induction false} BeforeConcat(a: seq<Byte>, b: seq<Byte>, x: seq<Byte>, y: seq<Byte>)
    requires |a| == |b|
    ensures Before(a + x, b + y) <==> Before(a, b) || (a == b && Before(x, y))
  {
    if a == [] {
      assert a + x == x && b + y == y;
    } else {
      assert (a + x)[1..] == a[1..] + x && (b + y)[1..] == b[1..] + y;
      BeforeConcat(a[1..], b[1..], x, y);
      assert a == [a[0]] + a[1..] && b == [b[0]] + b[1..];
    }
  }

  function TwoText(n: nat): (text: seq<Byte>)
    requires n < 100
  {
    [Tens(n), Units(n)]
  }

  lemma TwoOrder(m: nat, n: nat)
    requires m < 100 && n < 100
    ensures Before(TwoText(m), TwoText(n)) <==> m < n
    ensures TwoText(m) == TwoText(n) <==> m == n
  {
    BeforeConcat([Tens(m)], [Tens(n)], [Units(m)], [Units(n)]);
    assert TwoText(m) == [Tens(m)] + [Units(m)] && TwoText(n) == [Tens(n)] + [Units(n)];
    assert forall x: Byte :: [x][1..] == [];
  }

  // Fields of two digits, each followed by one given byte or by none.
  datatype Field = Field(value: nat, close: seq<Byte>)

  predicate ValidFields(fields: seq<Field>) {
    forall i :: 0 <= i < |fields| ==> fields[i].value < 100 && |fields[i].close| <= 1
  }

  predicate SameFormat(a: seq<Field>, b: seq<Field>) {
    |a| == |b| && forall i :: 0 <= i < |a| ==> a[i].close == b[i].close
  }

  function FieldsText(fields: seq<Field>): (text: seq<Byte>)
    requires ValidFields(fields)
  {
    if fields == [] then [] else TwoText(fields[0].value) + (fields[0].close + FieldsText(fields[1..]))
  }

  // The first field that differs decides.
  predicate FieldsBefore(a: seq<Field>, b: seq<Field>)
    requires |a| == |b|
  {
    a != [] && (a[0].value < b[0].value || (a[0].value == b[0].value && FieldsBefore(a[1..], b[1..])))
  }

  lemma {:induction false} FieldsOrder(a: seq<Field>, b: seq<Field>)
    requires ValidFields(a) && ValidFields(b) && SameFormat(a, b)
    ensures Before(FieldsText(a), FieldsText(b)) <==> FieldsBefore(a, b)
    ensures FieldsText(a) == FieldsText(b) <==> a == b
    ensures |FieldsText(a)| == |FieldsText(b)|
  {
    if a != [] {
      var x, y := FieldsText(a[1..]), FieldsText(b[1..]);
      var u, v, close := TwoText(a[0].value), TwoText(b[0].value), a[0].close;
      FieldsOrder(a[1..], b[1..]);
      TwoOrder(a[0].value, b[0].value);
      BeforeConcat(close, close, x, y);
      BeforeConcat(u, v, close + x, close + y);
      NotBeforeItself(close);
      SamePrefix(u, v, close, x, y);
      assert a == [a[0]] + a[1..] && b == [b[0]] + b[1..];
    }
  }

  lemma {:induction false} NotBeforeItself(a: seq<Byte>)
    ensures !Before(a, a)
  {
    if a != [] {
      NotBeforeItself(a[1..]);
    }
  }

  lemma SamePrefix(u: seq<Byte>, v: seq<Byte>, close: seq<Byte>, x: seq<Byte>, y: seq<Byte>)
    requires |u| == |v|
    ensures u + (close + x) == v + (close + y) <==> u == v && x == y
  {
    var a, b, n := u + (close + x), v + (close + y), |u| + |close|;
    if a == b {
      assert a[..|u|] == u && b[..|u|] == v && a[n..] == x && b[n..] == y;
    }
  }

  // Runs of digits of the same length sort as numbers.
  lemma {:induction false} DigitsOrder(a: seq<Byte>, b: seq<Byte>)
    requires Digits(a) && Digits(b) && |a| == |b|
    ensures Before(a, b) <==> DigitsValue(a) < DigitsValue(b)
    ensures a == b <==> DigitsValue(a) == DigitsValue(b)
  {
    if a != [] {
      var n := |a| - 1;
      var p, q, x, y := a[..n], b[..n], [a[n]], [b[n]];
      DigitsOrder(p, q);
      BeforeConcat(p, q, x, y);
      assert a == p + x && b == q + y;
      assert x[1..] == [] && y[1..] == [];
    }
  }

  function Fields(s: Stamp): (fields: seq<Field>)
    requires ValidStamp(s)
    ensures |fields| == 7 && ValidFields(fields)
  {
    [Field(s.date.year / 100, []), Field(s.date.year % 100, [MINUS]), Field(s.date.month, [MINUS]),
     Field(s.date.day, [s.separator]), Field(s.hour, [COLON]), Field(s.minute, [COLON]), Field(s.second, [])]
  }

  lemma HeadIsFields(s: Stamp)
    requires ValidStamp(s)
    ensures HeadText(s) == FieldsText(Fields(s))
  {
    UnitsOfYear(s.date.year);
    DateIsFields(Fields(s), s.separator);
    TimeIsFields(Fields(s));
  }

  lemma UnitsOfYear(year: nat)
    ensures Units(year % 100) == Units(year)
  {
    assert year % 100 % 10 == year % 10;
  }

  lemma DateIsFields(f: seq<Field>, separator: Byte)
    requires |f| == 7 && ValidFields(f)
    requires f[0].close == [] && f[1].close == [MINUS] && f[2].close == [MINUS] && f[3].close == [separator]
    ensures FieldsText(f) ==
            [Tens(f[0].value), Units(f[0].value), Tens(f[1].value), Units(f[1].value), MINUS,
             Tens(f[2].value), Units(f[2].value), MINUS, Tens(f[3].value), Units(f[3].value), separator] +
            FieldsText(f[4..])
  {
    YearIsFields(f);
    DayIsFields(f, separator);
  }

  lemma YearIsFields(f: seq<Field>)
    requires |f| == 7 && ValidFields(f) && f[0].close == [] && f[1].close == [MINUS]
    ensures FieldsText(f) ==
            [Tens(f[0].value), Units(f[0].value), Tens(f[1].value), Units(f[1].value), MINUS] + FieldsText(f[2..])
  {
    FieldsFrom(f, 1);
    FieldsFrom(f, 0);
    assert f[0..] == f;
  }

  lemma DayIsFields(f: seq<Field>, separator: Byte)
    requires |f| == 7 && ValidFields(f) && f[2].close == [MINUS] && f[3].close == [separator]
    ensures FieldsText(f[2..]) ==
            [Tens(f[2].value), Units(f[2].value), MINUS, Tens(f[3].value), Units(f[3].value), separator] +
            FieldsText(f[4..])
  {
    FieldsFrom(f, 3);
    FieldsFrom(f, 2);
  }

  lemma TimeIsFields(f: seq<Field>)
    requires |f| == 7 && ValidFields(f)
    requires f[4].close == [COLON] && f[5].close == [COLON] && f[6].close == []
    ensures FieldsText(f[4..]) ==
            [Tens(f[4].value), Units(f[4].value), COLON, Tens(f[5].value), Units(f[5].value), COLON,
             Tens(f[6].value), Units(f[6].value)]
  {
    FieldsFrom(f, 6);
    FieldsFrom(f, 5);
    FieldsFrom(f, 4);
    assert FieldsText(f[7..]) == [];
  }

  lemma FieldsFrom(f: seq<Field>, k: nat)
    requires ValidFields(f) && k < |f|
    ensures FieldsText(f[k..]) == TwoText(f[k].value) + (f[k].close + FieldsText(f[k + 1..]))
  {
    assert f[k..][1..] == f[k + 1..];
  }

  // Which of two local times comes first.
  predicate ClockBefore(a: Stamp, b: Stamp) {
    || Earlier(a.date, b.date)
    || (a.date == b.date && DaySeconds(a) < DaySeconds(b))
  }

  lemma FieldsAreClock(a: Stamp, b: Stamp)
    requires ValidStamp(a) && ValidStamp(b)
    ensures FieldsBefore(Fields(a), Fields(b)) <==> ClockBefore(a, b)
  {
    var f, g := Fields(a), Fields(b);
    FieldsSteps(f, g);
    YearFields(a.date.year, b.date.year);
    TimeSteps(a, b);
  }

  // The fields after the date come first as the seconds of the day do.
  lemma TimeSteps(a: Stamp, b: Stamp)
    requires ValidStamp(a) && ValidStamp(b)
    ensures FieldsBefore(Fields(a)[4..], Fields(b)[4..]) <==> DaySeconds(a) < DaySeconds(b)
  {
    var f, g := Fields(a), Fields(b);
    FieldsStep(f, g, 4);
    FieldsStep(f, g, 5);
    FieldsStep(f, g, 6);
    assert f[7..] == [];
  }

  lemma FieldsSteps(f: seq<Field>, g: seq<Field>)
    requires |f| == |g| == 7
    ensures FieldsBefore(f, g) <==>
            || f[0].value < g[0].value
            || (f[0].value == g[0].value &&
                (|| f[1].value < g[1].value
                 || (f[1].value == g[1].value &&
                     (|| f[2].value < g[2].value
                      || (f[2].value == g[2].value &&
                          (|| f[3].value < g[3].value
                           || (f[3].value == g[3].value && FieldsBefore(f[4..], g[4..]))))))))
  {
    FieldsStep(f, g, 0);
    FieldsStep(f, g, 1);
    FieldsStep(f, g, 2);
    FieldsStep(f, g, 3);
    assert f[0..] == f && g[0..] == g;
  }

  // Equal fields are those of the same local time.
  lemma FieldsAreSame(a: Stamp, b: Stamp)
    requires ValidStamp(a) && ValidStamp(b) && a.separator == b.separator
    ensures Fields(a) == Fields(b) <==>
            a.date == b.date && a.hour == b.hour && a.minute == b.minute && a.second == b.second
  {
    var f, g := Fields(a), Fields(b);
    if f == g {
      assert f[0].value == g[0].value && f[1].value == g[1].value && f[2].value == g[2].value;
      assert f[3].value == g[3].value && f[4].value == g[4].value;
      assert f[5].value == g[5].value && f[6].value == g[6].value;
    }
  }

  lemma YearFields(a: nat, b: nat)
    ensures a < b <==> a / 100 < b / 100 || (a / 100 == b / 100 && a % 100 < b % 100)
  {
  }

  lemma FieldsStep(f: seq<Field>, g: seq<Field>, k: nat)
    requires |f| == |g| && k < |f|
    ensures FieldsBefore(f[k..], g[k..]) <==>
            f[k].value < g[k].value || (f[k].value == g[k].value && FieldsBefore(f[k + 1..], g[k + 1..]))
  {
    assert f[k..][1..] == f[k + 1..] && g[k..][1..] == g[k + 1..];
  }

  lemma SecondsAreClock(a: Stamp, b: Stamp)
    requires ValidStamp(a) && ValidStamp(b) && a.offset.Zulu? && b.offset.Zulu?
    ensures StampSeconds(a) < StampSeconds(b) <==> ClockBefore(a, b)
    ensures StampSeconds(a) == StampSeconds(b) <==>
            a.date == b.date && a.hour == b.hour && a.minute == b.minute && a.second == b.second
  {
    DayNumberOrders(a.date, b.date);
    SameDaySeconds(a, b);
    DaysThenSeconds(DayNumber(a.date), DaySeconds(a), DayNumber(b.date), DaySeconds(b));
  }

  function DaySeconds(s: Stamp): (seconds: nat) {
    s.hour * 3600 + s.minute * 60 + s.second
  }

  lemma SameDaySeconds(a: Stamp, b: Stamp)
    requires ValidStamp(a) && ValidStamp(b)
    ensures DaySeconds(a) < 86400 && DaySeconds(b) < 86400
    ensures DaySeconds(a) == DaySeconds(b) <==> a.hour == b.hour && a.minute == b.minute && a.second == b.second
  {
  }

  lemma DaysThenSeconds(d: int, s: nat, e: int, t: nat)
    requires s < 86400 && t < 86400
    ensures d * 86400 + s < e * 86400 + t <==> d < e || (d == e && s < t)
    ensures d * 86400 + s == e * 86400 + t <==> d == e && s == t
  {
  }

  lemma ScaledOrder(x: int, y: int, scale: nat)
    requires scale > 0
    ensures x * scale < y * scale <==> x < y
  {
    if x < y {
      MulAtLeast(y - x, scale);
      assert (y - x) * scale == y * scale - x * scale;
    } else {
      assert (x - y) * scale == x * scale - y * scale;
    }
  }

  // Universal-time texts of one format sort as the instants they denote.
  lemma ByteOrderIsTimeOrder(a: Stamp, b: Stamp)
    requires ValidStamp(a) && ValidStamp(b) && a.offset.Zulu? && b.offset.Zulu?
    requires a.separator == b.separator && |a.fraction| == |b.fraction|
    ensures Before(StampText(a), StampText(b)) <==> Instant(a) < Instant(b)
  {
    TextOrder(a, b);
    SecondsAreClock(a, b);
    FractionBound(a.fraction);
    FractionBound(b.fraction);
    ScaledOrder(DigitsValue(a.fraction), DigitsValue(b.fraction), Scale(|a.fraction|));
  }

  lemma TextOrder(a: Stamp, b: Stamp)
    requires ValidStamp(a) && ValidStamp(b) && a.offset.Zulu? && b.offset.Zulu?
    requires a.separator == b.separator && |a.fraction| == |b.fraction|
    ensures Before(StampText(a), StampText(b)) <==>
            ClockBefore(a, b) ||
            (a.date == b.date && a.hour == b.hour && a.minute == b.minute && a.second == b.second &&
             DigitsValue(a.fraction) < DigitsValue(b.fraction))
  {
    HeadIsFields(a);
    HeadIsFields(b);
    FieldsOrder(Fields(a), Fields(b));
    FieldsAreClock(a, b);
    FieldsAreSame(a, b);
    FractionOrder(a.fraction, b.fraction);
    var x, y := FractionText(a.fraction) + [LETTER_Z], FractionText(b.fraction) + [LETTER_Z];
    BeforeConcat(HeadText(a), HeadText(b), x, y);
    assert StampText(a) == HeadText(a) + x && StampText(b) == HeadText(b) + y;
  }

  lemma FractionOrder(a: seq<Byte>, b: seq<Byte>)
    requires Digits(a) && Digits(b) && |a| == |b|
    ensures Before(FractionText(a) + [LETTER_Z], FractionText(b) + [LETTER_Z]) <==> DigitsValue(a) < DigitsValue(b)
  {
    DigitsOrder(a, b);
    NotBeforeItself([LETTER_Z]);
    BeforeConcat(FractionText(a), FractionText(b), [LETTER_Z], [LETTER_Z]);
    if a != [] {
      NotBeforeItself([DOT]);
      BeforeConcat([DOT], [DOT], a, b);
    }
  }
}
