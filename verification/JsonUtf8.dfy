/**
 Decoding keeps UTF-8 well formed: in a well-formed text, the bytes a string stands for
 and the bytes a value is spelled with are well formed themselves.
 */
module JsonUtf8 {
  import opened Utf8
  import opened JsonGrammar
  import opened JsonScanner
  import opened JsonParser
  import opened Reader

  lemma {:induction false} AsciiWellFormed(text: seq<Byte>)
    requires forall i :: 0 <= i < |text| ==> text[i] < 0x80
    ensures WellFormed(text)
  {
    if text != [] {
      AsciiWellFormed(text[1..]);
      PrependChar([text[0]], text[1..]);
      assert text == [text[0]] + text[1..];
    }
  }

  // A well-formed text can be cut on either side of an ASCII byte.
  lemma CutAfterAscii(text: seq<Byte>, at: nat)
    requires WellFormed(text) && 0 < at <= |text| && text[at - 1] < 0x80
    ensures WellFormed(text[..at]) && WellFormed(text[at..])
  {
    CutAtLead(text, at - 1);
    AroundByte(text, at);
    AppendAscii(text[..at - 1], text[at - 1]);
    BehindAscii(text[at - 1], text[at..]);
  }

  lemma AppendAscii(text: seq<Byte>, b: Byte)
    requires WellFormed(text) && b < 0x80
    ensures WellFormed(text + [b])
  {
    AsciiWellFormed([b]);
    WellFormedConcat(text, [b]);
  }

  lemma BehindAscii(b: Byte, text: seq<Byte>)
    requires WellFormed([b] + text) && b < 0x80
    ensures WellFormed(text)
  {
    AsciiWellFormed([b]);
    WellFormedConcat([b], text);
  }

  lemma AroundByte(text: seq<Byte>, at: nat)
    requires 0 < at <= |text|
    ensures text[..at] == text[..at - 1] + [text[at - 1]] && text[at - 1..] == [text[at - 1]] + text[at..]
  {
  }

  // From a byte that is no continuation byte to just after an ASCII byte.
  lemma SliceWellFormed(text: seq<Byte>, from: nat, to: nat)
    requires WellFormed(text) && from < to <= |text|
    requires !Tail(text[from]) && text[to - 1] < 0x80
    ensures WellFormed(text[from..to])
  {
    CutAtLead(text, from);
    RestCut(text[from..], text, from, to);
    SliceOfRest(text, from, to);
  }

  lemma RestCut(rest: seq<Byte>, text: seq<Byte>, from: nat, to: nat)
    requires from < to <= |text| && rest == text[from..] && WellFormed(rest) && text[to - 1] < 0x80
    ensures WellFormed(rest[..to - from])
  {
    assert rest[to - from - 1] == text[to - 1];
    CutAfterAscii(rest, to - from);
  }

  lemma SliceOfRest(text: seq<Byte>, from: nat, to: nat)
    requires from <= to <= |text|
    ensures text[from..][..to - from] == text[from..to]
  {
  }

  lemma EscapeTextAscii(c: Char)
    requires ValidChar(c) && !c.Plain?
    ensures forall i :: 0 <= i < |CharText(c)| ==> CharText(c)[i] < 0x80
    ensures WellFormed(CharText(c)) && WellFormed(CharMeaning(c))
  {
    match c {
      case Short(letter) =>
        AsciiWellFormed(CharMeaning(c));
      case Unit(hex) =>
        EncodeIsChar(Hex4Value(hex));
        PrependChar(CharMeaning(c), []);
        assert CharMeaning(c) + [] == CharMeaning(c);
      case Pair(high, low) =>
        EncodeIsChar(PairScalar(Hex4Value(high), Hex4Value(low)));
        PrependChar(CharMeaning(c), []);
        assert CharMeaning(c) + [] == CharMeaning(c);
    }
    AsciiWellFormed(CharText(c));
  }

  // Bytes above ASCII at the start of a string's text are unescaped characters.
  lemma {:induction false} PlainRun(chars: seq<Char>, high: seq<Byte>, tail: seq<Byte>)
    requires ValidChars(chars) && CharsText(chars) == high + tail
    requires forall i :: 0 <= i < |high| ==> high[i] >= 0x80
    ensures |high| <= |chars| && CharsText(chars[|high|..]) == tail
    ensures CharsMeaning(chars) == high + CharsMeaning(chars[|high|..])
  {
    if high == [] {
      assert high + tail == tail && chars[0..] == chars;
    } else {
      Regroup(high, tail);
      PlainFirst(chars, high[0], high[1..] + tail);
      assert forall i :: 0 <= i < |high| - 1 ==> high[1..][i] == high[i + 1];
      PlainRun(chars[1..], high[1..], tail);
      assert chars[1..][|high| - 1..] == chars[|high|..];
      Regroup(high, CharsMeaning(chars[|high|..]));
    }
  }

  lemma Regroup(high: seq<Byte>, rest: seq<Byte>)
    requires high != []
    ensures [high[0]] + (high[1..] + rest) == high + rest
  {
  }

  lemma PlainFirst(chars: seq<Char>, b: Byte, rest: seq<Byte>)
    requires ValidChars(chars) && CharsText(chars) == [b] + rest && b >= 0x80
    ensures chars != [] && CharsText(chars[1..]) == rest
    ensures CharsMeaning(chars) == [b] + CharsMeaning(chars[1..])
  {
    assert CharText(chars[0])[0] == CharsText(chars)[0];
    assert CharsText(chars)[1..] == rest;
    assert CharsText(chars)[1..] == CharsText(chars[1..]);
  }

  lemma {:induction false} MeaningWellFormed(chars: seq<Char>)
    requires ValidChars(chars) && WellFormed(CharsText(chars))
    ensures WellFormed(CharsMeaning(chars))
    decreases |chars|
  {
    if chars != [] {
      var n := FirstChars(chars);
      MeaningWellFormed(chars[n..]);
      FirstMeaning(chars, n);
    }
  }

  // Some of the first characters of a string: an escape, or the bytes of one character.
  ghost predicate First(chars: seq<Char>, n: nat) {
    && 0 < n <= |chars| && ValidChars(chars)
    && if chars[0].Plain? then
         exists high :: Utf8Char(high) && CharsMeaning(chars) == high + CharsMeaning(chars[n..])
       else n == 1
  }

  lemma FirstChars(chars: seq<Char>) returns (n: nat)
    requires ValidChars(chars) && chars != [] && WellFormed(CharsText(chars))
    ensures First(chars, n) && WellFormed(CharsText(chars[n..]))
  {
    if chars[0].Plain? {
      n := FirstPlain(chars, CharsText(chars));
    } else {
      n := 1;
      EscapeTextAscii(chars[0]);
      WellFormedConcat(CharText(chars[0]), CharsText(chars[1..]));
    }
  }

  lemma FirstPlain(chars: seq<Char>, text: seq<Byte>) returns (n: nat)
    requires ValidChars(chars) && chars != [] && chars[0].Plain?
    requires text == CharsText(chars) && WellFormed(text)
    ensures First(chars, n) && WellFormed(CharsText(chars[n..]))
  {
    n := CharLength(text);
    assert text == text[..n] + text[n..];
    if n == 1 {
      assert text == [chars[0].byte] + CharsText(chars[1..]) && text[..1] == [chars[0].byte];
      assert text[1..] == CharsText(chars[1..]);
      assert CharsMeaning(chars) == text[..1] + CharsMeaning(chars[1..]);
    } else {
      HighBytes(text, n);
      PlainRun(chars, text[..n], text[n..]);
    }
  }

  lemma FirstMeaning(chars: seq<Char>, n: nat)
    requires First(chars, n) && WellFormed(CharsMeaning(chars[n..]))
    ensures WellFormed(CharsMeaning(chars))
  {
    if chars[0].Plain? {
      var high :| Utf8Char(high) && CharsMeaning(chars) == high + CharsMeaning(chars[n..]);
      PrependChar(high, CharsMeaning(chars[n..]));
    } else {
      EscapeTextAscii(chars[0]);
      WellFormedConcat(CharMeaning(chars[0]), CharsMeaning(chars[1..]));
    }
  }

  lemma HighBytes(text: seq<Byte>, n: nat)
    requires 1 < n <= |text| && Utf8Char(text[..n])
    ensures forall i :: 0 <= i < n ==> text[i] >= 0x80
  {
    assert forall i :: 0 <= i < n ==> text[..n][i] == text[i];
  }

  // Every string decoded from a well-formed text is well formed.
  lemma StringWellFormed(s: seq<Byte>, i: nat)
    requires WellFormed(s) && i <= |s| && StringAt(s, i).Some?
    ensures WellFormed(StringAt(s, i).value.meaning)
  {
    var start := JsonScanner.Eat(s, i, QUOTE).value;
    EatenBefore(s, i, QUOTE);
    RestWellFormed(s, start);
  }

  lemma EatenBefore(s: seq<Byte>, i: nat, b: Byte)
    requires i <= |s| && JsonScanner.Eat(s, i, b).Some?
    ensures var next := JsonScanner.Eat(s, i, b).value; 0 < next <= |s| && s[next - 1] == b
  {
  }

  lemma RestWellFormed(s: seq<Byte>, start: nat)
    requires WellFormed(s) && 0 < start <= |s| && s[start - 1] == QUOTE && StringRest(s, start).Some?
    ensures WellFormed(StringRest(s, start).value.meaning)
  {
    var chars := StringSound(s, start);
    DecodedWellFormed(s, start, StringRest(s, start).value.next, chars);
  }

  lemma DecodedWellFormed(s: seq<Byte>, start: nat, next: nat, chars: seq<Char>)
    requires WellFormed(s) && ValidChars(chars) && 0 < start <= |s| && s[start - 1] == QUOTE
    requires Spans(s, start, next, CharsText(chars) + [QUOTE])
    ensures WellFormed(CharsMeaning(chars))
  {
    var close := SpansSplit(s, start, next, CharsText(chars), [QUOTE]);
    SpansByte(s, close, next, QUOTE);
    SpansSlice(s, start, close, CharsText(chars));
    BodyWellFormed(s, start, close);
    MeaningWellFormed(chars);
  }

  lemma BodyWellFormed(s: seq<Byte>, start: nat, close: nat)
    requires WellFormed(s) && 0 < start <= close < |s| && s[start - 1] == QUOTE && s[close] == QUOTE
    ensures WellFormed(s[start..close])
  {
    CutAfterAscii(s, start);
    RestBefore(s[start..], s, start, close);
    SliceOfRest(s, start, close);
  }

  lemma RestBefore(rest: seq<Byte>, text: seq<Byte>, from: nat, to: nat)
    requires from <= to < |text| && rest == text[from..] && WellFormed(rest) && !Tail(text[to])
    ensures WellFormed(rest[..to - from])
  {
    assert rest[to - from] == text[to];
    CutAtLead(rest, to - from);
  }

  // A value's text ends with an ASCII byte.
  lemma ValueEndsAscii(v: Value)
    requires ValidValue(v)
    ensures Text(v) != [] && Text(v)[0] < 0x80 && Text(v)[|Text(v)| - 1] < 0x80
  {
    if v.Num? {
      var n := v.number;
      if n.exponent.Exponent? {
        assert Text(v)[|Text(v)| - 1] == n.exponent.digits[|n.exponent.digits| - 1];
      } else if n.fraction != [] {
        assert Text(v)[|Text(v)| - 1] == n.fraction[|n.fraction| - 1];
      } else {
        assert Text(v)[|Text(v)| - 1] == n.whole[|n.whole| - 1];
      }
    }
  }

  lemma SpelledWellFormed(s: seq<Byte>, from: nat, to: nat, v: Value)
    requires WellFormed(s) && ValidValue(v) && Spans(s, from, to, Text(v))
    ensures from <= to <= |s| && WellFormed(s[from..to])
  {
    var text := Text(v);
    ValueEndsAscii(v);
    SpansSlice(s, from, to, text);
    SliceEnds(s, from, to);
    SliceWellFormed(s, from, to);
  }

  lemma SliceEnds(s: seq<Byte>, from: nat, to: nat)
    requires from < to <= |s|
    ensures s[from..to][0] == s[from] && s[from..to][|s[from..to]| - 1] == s[to - 1]
  {
  }

  // The spelling of every value accepted in a well-formed text is well formed.
  lemma ValueWellFormed(s: seq<Byte>, i: nat, depth: nat)
    requires WellFormed(s) && i <= |s| && ParseValue(s, i, depth).Accept?
    ensures WellFormed(s[SkipSpace(s, i)..ParseValue(s, i, depth).next])
  {
    var v := ValueSound(s, i, depth);
    SpelledWellFormed(s, SkipSpace(s, i), ParseValue(s, i, depth).next, v);
  }
}
