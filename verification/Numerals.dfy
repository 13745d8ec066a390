/**
 What a run of decimal digits stands for, told by printing: every number has one numeral
 without needless zeros, and exactly the runs of zeros before it are read as that number.
 */
module Numerals {
  import opened Utf8
  import opened JsonGrammar
  import opened Timestamp

  function Printed(n: nat): (digits: seq<Byte>)
    ensures digits != [] && Digits(digits)
  {
    if n < 10 then [0x30 + n] else Printed(n / 10) + [0x30 + n % 10]
  }

  function Zeros(count: nat): (zeros: seq<Byte>)
    ensures |zeros| == count
  {
    seq(count, _ => 0x30)
  }

  // Digits that are the numeral of n, with zeros before it.
  ghost predicate IsNumeral(digits: seq<Byte>, n: int) {
    n >= 0 && exists zeros: nat :: digits == Zeros(zeros) + Printed(n)
  }

  // A decimal integer with an optional minus sign.
  ghost predicate Spells(text: seq<Byte>, n: int) {
    IsNumeral(text, n) || (text != [] && text[0] == 0x2D && IsNumeral(text[1..], -n))
  }

  lemma NumeralMore(init: seq<Byte>, m: nat, digit: nat)
    requires digit < 10 && IsNumeral(init, m)
    ensures IsNumeral(init + [0x30 + digit], m * 10 + digit)
  {
    var zeros: nat :| init == Zeros(zeros) + Printed(m);
    var n := m * 10 + digit;
    if m == 0 {
      assert init == Zeros(zeros + 1);
      assert init + [0x30 + digit] == Zeros(zeros + 1) + Printed(n);
    } else {
      assert Printed(n) == Printed(m) + [0x30 + digit];
      assert init + [0x30 + digit] == Zeros(zeros) + Printed(n);
    }
  }

  lemma {:induction false} DigitsAreNumeral(digits: seq<Byte>)
    requires digits != [] && Digits(digits)
    ensures IsNumeral(digits, DigitsValue(digits))
  {
    var init, last := digits[..|digits| - 1], digits[|digits| - 1];
    assert digits == init + [last];
    if init == [] {
      assert DigitsValue(init) == 0;
      assert digits == Zeros(0) + Printed(last - 0x30);
    } else {
      DigitsAreNumeral(init);
      NumeralMore(init, DigitsValue(init), last - 0x30);
    }
  }

  lemma {:induction false} ZerosAreNothing(count: nat)
    ensures Digits(Zeros(count)) && DigitsValue(Zeros(count)) == 0
  {
    if count > 0 {
      ZerosAreNothing(count - 1);
      assert Zeros(count)[..count - 1] == Zeros(count - 1);
    }
  }

  lemma {:induction false} NumeralValue(zeros: nat, n: nat)
    ensures Digits(Zeros(zeros) + Printed(n)) && DigitsValue(Zeros(zeros) + Printed(n)) == n
  {
    var digits := Zeros(zeros) + Printed(n);
    if n < 10 {
      ZerosAreNothing(zeros);
      assert digits[..|digits| - 1] == Zeros(zeros);
    } else {
      NumeralValue(zeros, n / 10);
      assert digits[..|digits| - 1] == Zeros(zeros) + Printed(n / 10);
    }
  }

  // Digits are read as the number whose numeral they are, and as no other.
  lemma ValueIsNumeral(digits: seq<Byte>, n: int)
    ensures digits != [] && Digits(digits) && DigitsValue(digits) == n <==> IsNumeral(digits, n)
  {
    if digits != [] && Digits(digits) && DigitsValue(digits) == n {
      DigitsAreNumeral(digits);
    }
    if IsNumeral(digits, n) {
      var zeros: nat :| digits == Zeros(zeros) + Printed(n);
      NumeralValue(zeros, n);
    }
  }
}
