/**
 The lexical part of the JSON reader: blanks, strings and numbers, each read exactly
 where the grammar has one.
 */
module JsonScanner {
  import opened Wrappers
  import opened Utf8
  import opened JsonGrammar

  function SkipSpace(s: seq<Byte>, i: nat): (next: nat)
    requires i <= |s|
    ensures i <= next <= |s|
    ensures next < |s| ==> !IsSpace(s[next])
    decreases |s| - i
  {
    if i < |s| && IsSpace(s[i]) then SkipSpace(s, i + 1) else i
  }

  // eat: skip blanks, then one given byte.
  function Eat(s: seq<Byte>, i: nat, b: Byte): (next: Option<nat>)
    requires i <= |s|
    ensures next.Some? ==> i < next.value <= |s|
  {
    var j := SkipSpace(s, i);
    if j < |s| && s[j] == b then Some(j + 1) else None
  }

  // ----- Blanks -----------------------------------------------------------------------

  lemma {:induction false} SpaceSound(s: seq<Byte>, i: nat) returns (blank: seq<Byte>)
    requires i <= |s|
    ensures Blank(blank) && Spans(s, i, SkipSpace(s, i), blank)
    decreases |s| - i
  {
    if i < |s| && IsSpace(s[i]) {
      var rest := SpaceSound(s, i + 1);
      blank := [s[i]] + rest;
      assert blank[1..] == rest;
    } else {
      blank := [];
    }
  }

  lemma {:induction false} SpaceComplete(s: seq<Byte>, i: nat, j: nat, blank: seq<Byte>)
    requires Blank(blank) && Spans(s, i, j, blank)
    requires j < |s| ==> !IsSpace(s[j])
    ensures i <= |s| && SkipSpace(s, i) == j
    decreases |blank|
  {
    if blank != [] {
      SpaceComplete(s, i + 1, j, blank[1..]);
    }
  }

  lemma EatSound(s: seq<Byte>, i: nat, b: Byte) returns (blank: seq<Byte>)
    requires i <= |s| && Eat(s, i, b).Some?
    ensures Blank(blank) && Spans(s, i, Eat(s, i, b).value, blank + [b])
  {
    blank := SpaceSound(s, i);
    var j := SkipSpace(s, i);
    SpansByte(s, j, j + 1, b);
    SpansJoin(s, i, j, j + 1, blank, [b]);
  }

  // After blanks, a byte that is not a blank is eaten exactly when it is the one asked for.
  lemma EatComplete(s: seq<Byte>, i: nat, j: nat, blank: seq<Byte>, c: Byte, b: Byte)
    requires Blank(blank) && Spans(s, i, j, blank + [c]) && !IsSpace(c)
    ensures i <= |s| && Eat(s, i, b) == (if c == b then Some(j) else None)
  {
    var mid := SpansSplit(s, i, j, blank, [c]);
    SpansByte(s, mid, j, c);
    SpaceComplete(s, i, mid, blank);
  }

  // ----- Strings ----------------------------------------------------------------------

  function Hex4At(s: seq<Byte>, i: nat): (code: Option<nat>)
    ensures code.Some? ==> i + 4 <= |s| && IsHex4(s[i..i + 4]) && code.value == Hex4Value(s[i..i + 4])
  {
    if i + 4 <= |s| && IsHex4(s[i..i + 4]) then Some(Hex4Value(s[i..i + 4])) else None
  }

  // What comes next inside a string.
  datatype Piece = Bad | Close | Put(meaning: seq<Byte>, next: nat)

  predicate EscapeAt(s: seq<Byte>, i: nat) {
    i + 2 <= |s| && s[i] == BACKSLASH && s[i + 1] == LETTER_U
  }

  function UnicodePiece(s: seq<Byte>, i: nat): (piece: Piece) {
    match Hex4At(s, i)
    case None => Bad
    case Some(code) =>
      if IsHighSurrogate(code) then
        if !EscapeAt(s, i + 4) then Bad
        else match Hex4At(s, i + 6)
          case None => Bad
          case Some(low) => if IsLowSurrogate(low) then Put(Encode(PairScalar(code, low)), i + 10) else Bad
      else if IsLowSurrogate(code) then Bad
      else Put(Encode(code), i + 4)
  }

  function PieceAt(s: seq<Byte>, i: nat): (piece: Piece)
    requires i <= |s|
    ensures piece.Put? ==> i < piece.next <= |s|
    ensures piece.Close? ==> i < |s|
  {
    if i == |s| then Bad
    else if s[i] == QUOTE then Close
    else if s[i] < 0x20 then Bad
    else if s[i] != BACKSLASH then Put([s[i]], i + 1)
    else if i + 1 == |s| then Bad
    else if IsShort(s[i + 1]) then Put([ShortMeaning(s[i + 1])], i + 2)
    else if s[i + 1] == LETTER_U then UnicodePiece(s, i + 2)
    else Bad
  }

  datatype Decoded = Decoded(meaning: seq<Byte>, next: nat)

  // The rest of a string after its opening quote: the bytes it stands for, and the
  // position after the closing quote.
  function StringRest(s: seq<Byte>, i: nat): (r: Option<Decoded>)
    requires i <= |s|
    ensures r.Some? ==> i < r.value.next <= |s|
    decreases |s| - i
  {
    match PieceAt(s, i)
    case Bad => None
    case Close => Some(Decoded([], i + 1))
    case Put(meaning, next) =>
      match StringRest(s, next)
      case None => None
      case Some(rest) => Some(Decoded(meaning + rest.meaning, rest.next))
  }

  lemma SpansEscape(s: seq<Byte>, i: nat)
    requires EscapeAt(s, i)
    ensures Spans(s, i, i + 2, [BACKSLASH, LETTER_U])
  {
    SpansSlice(s, i, i + 2, [BACKSLASH, LETTER_U]);
    assert s[i..i + 2] == [s[i], s[i + 1]];
  }

  lemma EscapeSpans(s: seq<Byte>, i: nat, j: nat)
    requires Spans(s, i, j, [BACKSLASH, LETTER_U])
    ensures EscapeAt(s, i) && j == i + 2
  {
    SpansSlice(s, i, j, [BACKSLASH, LETTER_U]);
    assert s[i..j][0] == s[i] && s[i..j][1] == s[i + 1];
  }

  lemma UnitSpans(s: seq<Byte>, i: nat, hex: seq<Byte>)
    requires EscapeAt(s, i) && i + 6 <= |s| && hex == s[i + 2..i + 6]
    ensures Spans(s, i, i + 6, [BACKSLASH, LETTER_U] + hex)
  {
    SpansEscape(s, i);
    SpansSlice(s, i + 2, i + 6, hex);
    SpansJoin(s, i, i + 2, i + 6, [BACKSLASH, LETTER_U], hex);
  }

  lemma PairSpans(s: seq<Byte>, i: nat, high: seq<Byte>, low: seq<Byte>)
    requires EscapeAt(s, i) && EscapeAt(s, i + 6) && i + 12 <= |s|
    requires high == s[i + 2..i + 6] && low == s[i + 8..i + 12]
    ensures Spans(s, i, i + 12, CharText(Pair(high, low)))
  {
    UnitSpans(s, i + 6, low);
    SpansEscape(s, i);
    SpansSlice(s, i + 2, i + 6, high);
    SpansJoin(s, i + 2, i + 6, i + 12, high, [BACKSLASH, LETTER_U] + low);
    SpansJoin(s, i, i + 2, i + 12, [BACKSLASH, LETTER_U], high + ([BACKSLASH, LETTER_U] + low));
  }

  lemma PieceIsChar(s: seq<Byte>, i: nat) returns (c: Char)
    requires i <= |s| && PieceAt(s, i).Put?
    ensures ValidChar(c) && Spans(s, i, PieceAt(s, i).next, CharText(c))
    ensures PieceAt(s, i).meaning == CharMeaning(c)
  {
    if s[i] != BACKSLASH {
      c := Plain(s[i]);
      SpansByte(s, i, i + 1, s[i]);
    } else if IsShort(s[i + 1]) {
      c := Short(s[i + 1]);
      SpansSlice(s, i, i + 2, [s[i], s[i + 1]]);
      assert s[i..i + 2] == [s[i], s[i + 1]];
    } else if IsHighSurrogate(Hex4At(s, i + 2).value) {
      c := Pair(s[i + 2..i + 6], s[i + 8..i + 12]);
      PairSpans(s, i, c.high, c.low);
    } else {
      c := Unit(s[i + 2..i + 6]);
      UnitSpans(s, i, c.hex);
    }
  }

  lemma CharIsPiece(s: seq<Byte>, i: nat, j: nat, c: Char)
    requires ValidChar(c) && Spans(s, i, j, CharText(c))
    ensures i <= |s| && PieceAt(s, i) == Put(CharMeaning(c), j)
  {
    match c {
      case Plain(b) => SpansByte(s, i, j, b);
      case Short(letter) =>
        SpansSlice(s, i, j, CharText(c));
        assert s[i..j][0] == s[i] && s[i..j][1] == s[i + 1];
      case Unit(hex) =>
        var mid := SpansSplit(s, i, j, [BACKSLASH, LETTER_U], hex);
        EscapeSpans(s, i, mid);
        SpansSlice(s, mid, j, hex);
      case Pair(high, low) => PairIsPiece(s, i, j, high, low);
    }
  }

  lemma PairIsPiece(s: seq<Byte>, i: nat, j: nat, high: seq<Byte>, low: seq<Byte>)
    requires ValidChar(Pair(high, low)) && Spans(s, i, j, CharText(Pair(high, low)))
    ensures i <= |s| && PieceAt(s, i) == Put(CharMeaning(Pair(high, low)), j)
  {
    var a := SpansSplit(s, i, j, [BACKSLASH, LETTER_U], high + ([BACKSLASH, LETTER_U] + low));
    var b := SpansSplit(s, a, j, high, [BACKSLASH, LETTER_U] + low);
    var c := SpansSplit(s, b, j, [BACKSLASH, LETTER_U], low);
    EscapeSpans(s, i, a);
    SpansSlice(s, a, b, high);
    EscapeSpans(s, b, c);
    SpansSlice(s, c, j, low);
  }

  // The reader finds exactly these characters and the closing quote, and decodes them to
  // what they stand for.
  ghost predicate ReadsAs(s: seq<Byte>, i: nat, j: nat, chars: seq<Char>) {
    && i <= |s| && ValidChars(chars)
    && StringRest(s, i).Some?
    && StringRest(s, i).value.meaning == CharsMeaning(chars)
    && StringRest(s, i).value.next == j
  }

  lemma ReadsCons(s: seq<Byte>, i: nat, mid: nat, j: nat, c: Char, rest: seq<Char>)
    requires i <= |s| && ValidChar(c) && PieceAt(s, i) == Put(CharMeaning(c), mid)
    requires ReadsAs(s, mid, j, rest)
    ensures ReadsAs(s, i, j, [c] + rest)
  {
    ConsChars(c, rest);
  }

  lemma ClosedCons(c: Char, rest: seq<Char>)
    requires ValidChar(c) && ValidChars(rest)
    ensures CharsText([c] + rest) + [QUOTE] == CharText(c) + (CharsText(rest) + [QUOTE])
  {
    ConsChars(c, rest);
  }

  // A string is read exactly when characters of the grammar spell it.
  lemma {:induction false} StringSound(s: seq<Byte>, i: nat) returns (chars: seq<Char>)
    requires i <= |s| && StringRest(s, i).Some?
    ensures ReadsAs(s, i, StringRest(s, i).value.next, chars)
    ensures Spans(s, i, StringRest(s, i).value.next, CharsText(chars) + [QUOTE])
    decreases |s| - i
  {
    if PieceAt(s, i).Close? {
      chars := [];
      SpansByte(s, i, i + 1, QUOTE);
    } else {
      var mid, j := PieceAt(s, i).next, StringRest(s, i).value.next;
      var c := PieceIsChar(s, i);
      var rest := StringSound(s, mid);
      chars := [c] + rest;
      ReadsCons(s, i, mid, j, c, rest);
      SpansJoin(s, i, mid, j, CharText(c), CharsText(rest) + [QUOTE]);
      ClosedCons(c, rest);
    }
  }

  lemma {:induction false} StringComplete(s: seq<Byte>, i: nat, j: nat, chars: seq<Char>)
    requires ValidChars(chars) && Spans(s, i, j, CharsText(chars) + [QUOTE])
    ensures ReadsAs(s, i, j, chars)
    decreases |chars|
  {
    if chars == [] {
      SpansByte(s, i, j, QUOTE);
    } else {
      var c, rest := chars[0], chars[1..];
      assert chars == [c] + rest;
      ClosedCons(c, rest);
      var mid := SpansSplit(s, i, j, CharText(c), CharsText(rest) + [QUOTE]);
      CharIsPiece(s, i, mid, c);
      StringComplete(s, mid, j, rest);
      ReadsCons(s, i, mid, j, c, rest);
    }
  }

  // ----- Numbers ----------------------------------------------------------------------

  function SkipDigits(s: seq<Byte>, i: nat): (next: nat)
    requires i <= |s|
    ensures i <= next <= |s|
    ensures next < |s| ==> !IsDigit(s[next])
    decreases |s| - i
  {
    if i < |s| && IsDigit(s[i]) then SkipDigits(s, i + 1) else i
  }

  function WholeEnd(s: seq<Byte>, i: nat): (next: Option<nat>)
    requires i <= |s|
    ensures next.Some? ==> i < next.value <= |s|
  {
    if i == |s| then None
    else if s[i] == ZERO then Some(i + 1)
    else if IsDigit(s[i]) then Some(SkipDigits(s, i))
    else None
  }

  function FractionEnd(s: seq<Byte>, i: nat): (next: Option<nat>)
    requires i <= |s|
    ensures next.Some? ==> i <= next.value <= |s|
  {
    if i < |s| && s[i] == DOT then
      if SkipDigits(s, i + 1) == i + 1 then None else Some(SkipDigits(s, i + 1))
    else Some(i)
  }

  predicate IsSign(b: Byte) {
    b == 0x2B || b == MINUS
  }

  function ExponentEnd(s: seq<Byte>, i: nat): (next: Option<nat>)
    requires i <= |s|
    ensures next.Some? ==> i <= next.value <= |s|
  {
    if i < |s| && (s[i] == 0x65 || s[i] == 0x45) then
      var j := if i + 1 < |s| && IsSign(s[i + 1]) then i + 2 else i + 1;
      if SkipDigits(s, j) == j then None else Some(SkipDigits(s, j))
    else Some(i)
  }

  function SignEnd(s: seq<Byte>, i: nat): (next: nat)
    requires i < |s|
    ensures i <= next <= |s|
  {
    if s[i] == MINUS then i + 1 else i
  }

  function NumberEnd(s: seq<Byte>, i: nat): (next: Option<nat>)
    requires i < |s|
    ensures next.Some? ==> i < next.value <= |s|
  {
    match WholeEnd(s, SignEnd(s, i))
    case None => None
    case Some(whole) =>
      match FractionEnd(s, whole)
      case None => None
      case Some(fraction) => ExponentEnd(s, fraction)
  }

  // What may follow a value: the end of the text, a blank, a comma or a closing bracket.
  predicate Ends(s: seq<Byte>, i: nat) {
    i >= |s| || IsSpace(s[i]) || s[i] == COMMA || s[i] == Closer(true) || s[i] == Closer(false)
  }

  lemma {:induction false} DigitsSound(s: seq<Byte>, i: nat) returns (digits: seq<Byte>)
    requires i <= |s|
    ensures Digits(digits) && Spans(s, i, SkipDigits(s, i), digits)
    ensures digits != [] <==> i < |s| && IsDigit(s[i])
    ensures digits != [] ==> digits[0] == s[i]
    decreases |s| - i
  {
    if i < |s| && IsDigit(s[i]) {
      var rest := DigitsSound(s, i + 1);
      digits := [s[i]] + rest;
      assert digits[1..] == rest;
    } else {
      digits := [];
    }
  }

  lemma {:induction false} DigitsComplete(s: seq<Byte>, i: nat, j: nat, digits: seq<Byte>)
    requires Spans(s, i, j, digits) && Digits(digits)
    requires j < |s| ==> !IsDigit(s[j])
    ensures i <= |s| && SkipDigits(s, i) == j
    decreases |digits|
  {
    if digits != [] {
      DigitsComplete(s, i + 1, j, digits[1..]);
    }
  }

  predicate ValidWhole(whole: seq<Byte>) {
    Digits(whole) && (whole == [ZERO] || (whole != [] && whole[0] != ZERO))
  }

  lemma WholeSound(s: seq<Byte>, i: nat) returns (whole: seq<Byte>)
    requires i <= |s| && WholeEnd(s, i).Some?
    ensures ValidWhole(whole) && Spans(s, i, WholeEnd(s, i).value, whole)
  {
    if s[i] == ZERO {
      whole := [ZERO];
      SpansByte(s, i, i + 1, ZERO);
    } else {
      whole := DigitsSound(s, i);
    }
  }

  lemma WholeComplete(s: seq<Byte>, i: nat, j: nat, whole: seq<Byte>)
    requires ValidWhole(whole) && Spans(s, i, j, whole)
    requires j < |s| ==> !IsDigit(s[j])
    ensures i < |s| && IsDigit(s[i]) && WholeEnd(s, i) == Some(j)
  {
    SpansInside(s, i, j, whole);
    if whole == [ZERO] {
      SpansByte(s, i, j, ZERO);
    } else {
      DigitsComplete(s, i, j, whole);
    }
  }

  lemma FractionSound(s: seq<Byte>, i: nat) returns (fraction: seq<Byte>)
    requires i <= |s| && FractionEnd(s, i).Some?
    ensures Digits(fraction) && Spans(s, i, FractionEnd(s, i).value, FractionText(fraction))
  {
    if i < |s| && s[i] == DOT {
      fraction := DigitsSound(s, i + 1);
      SpansByte(s, i, i + 1, DOT);
      SpansJoin(s, i, i + 1, SkipDigits(s, i + 1), [DOT], fraction);
    } else {
      fraction := [];
    }
  }

  lemma FractionComplete(s: seq<Byte>, i: nat, j: nat, fraction: seq<Byte>)
    requires Digits(fraction) && Spans(s, i, j, FractionText(fraction))
    requires j < |s| ==> !IsDigit(s[j]) && s[j] != DOT
    ensures i <= |s| && FractionEnd(s, i) == Some(j) && (i < |s| ==> !IsDigit(s[i]))
  {
    if fraction != [] {
      var mid := SpansSplit(s, i, j, [DOT], fraction);
      SpansByte(s, i, mid, DOT);
      DigitsComplete(s, mid, j, fraction);
    }
  }

  lemma ExponentSound(s: seq<Byte>, i: nat) returns (e: Exponent)
    requires i <= |s| && ExponentEnd(s, i).Some?
    ensures ValidExponent(e) && Spans(s, i, ExponentEnd(s, i).value, ExponentText(e))
  {
    if i < |s| && (s[i] == 0x65 || s[i] == 0x45) {
      var signed := i + 1 < |s| && IsSign(s[i + 1]);
      var j := if signed then i + 2 else i + 1;
      var digits := DigitsSound(s, j);
      e := Exponent(s[i], if signed then [s[i + 1]] else [], digits);
      SpansByte(s, i, i + 1, s[i]);
      if signed {
        SpansByte(s, i + 1, j, s[i + 1]);
      }
      SpansJoin(s, i + 1, j, SkipDigits(s, j), e.sign, digits);
      SpansJoin(s, i, i + 1, SkipDigits(s, j), [s[i]], e.sign + digits);
    } else {
      e := NoExponent;
    }
  }

  lemma ExponentComplete(s: seq<Byte>, i: nat, j: nat, e: Exponent)
    requires ValidExponent(e) && Spans(s, i, j, ExponentText(e)) && Ends(s, j)
    ensures i <= |s| && ExponentEnd(s, i) == Some(j) && (i < |s| ==> !IsDigit(s[i]) && s[i] != DOT)
  {
    if e.Exponent? {
      var mid := SpansSplit(s, i, j, [e.letter], e.sign + e.digits);
      SpansByte(s, i, mid, e.letter);
      var digits := SpansSplit(s, mid, j, e.sign, e.digits);
      SpansInside(s, digits, j, e.digits);
      SpansInside(s, mid, digits, e.sign);
      DigitsComplete(s, digits, j, e.digits);
    }
  }

  // A number is read exactly when one of the grammar is there and nothing continues it.
  lemma NumberSound(s: seq<Byte>, i: nat) returns (n: Number)
    requires i < |s| && NumberEnd(s, i).Some?
    ensures ValidNumber(n) && Spans(s, i, NumberEnd(s, i).value, NumberText(n))
  {
    var whole, tail := SignEnd(s, i), WholeEnd(s, SignEnd(s, i)).value;
    var exponent, end := FractionEnd(s, tail).value, NumberEnd(s, i).value;
    var w := WholeSound(s, whole);
    var f := FractionSound(s, tail);
    var e := ExponentSound(s, exponent);
    n := Number(s[i] == MINUS, w, f, e);
    SpansJoin(s, tail, exponent, end, FractionText(f), ExponentText(e));
    SpansJoin(s, whole, tail, end, w, FractionText(f) + ExponentText(e));
    SpansByte(s, i, i + 1, MINUS);
    SpansJoin(s, i, whole, end, if n.minus then [MINUS] else [], w + (FractionText(f) + ExponentText(e)));
  }

  lemma NumberComplete(s: seq<Byte>, i: nat, j: nat, n: Number)
    requires ValidNumber(n) && Spans(s, i, j, NumberText(n)) && Ends(s, j)
    ensures i < |s| && (s[i] == MINUS || IsDigit(s[i])) && NumberEnd(s, i) == Some(j)
  {
    var sign, f, e := if n.minus then [MINUS] else [], FractionText(n.fraction), ExponentText(n.exponent);
    var whole := SpansSplit(s, i, j, sign, n.whole + (f + e));
    var tail := SpansSplit(s, whole, j, n.whole, f + e);
    var exponent := SpansSplit(s, tail, j, f, e);
    ExponentComplete(s, exponent, j, n.exponent);
    FractionComplete(s, tail, exponent, n.fraction);
    WholeComplete(s, whole, tail, n.whole);
    SpansByte(s, i, whole, MINUS);
  }
}
