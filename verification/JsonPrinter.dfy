/**
 The JSON string printer of the latency report, and its inverse: the envelope reader
 gives back every byte string the printer was given.
 */
module JsonPrinter {
  import opened Wrappers
  import opened Utf8
  import opened JsonGrammar
  import opened JsonScanner
  import R = Reader

  function HexDigit(value: nat): (b: Byte)
    requires value < 16
    ensures IsHex(b) && HexValue(b) == value
  {
    if value < 10 then 0x30 + value else 0x61 + value - 10
  }

  // The character that stands for a byte: escaped when it has to be.
  function CharFor(b: Byte): (c: Char)
    ensures ValidChar(c) && CharMeaning(c) == [b]
  {
    if b == QUOTE || b == BACKSLASH then Short(b)
    else if b < 0x20 then Unit([ZERO, ZERO, HexDigit(b / 16), HexDigit(b % 16)])
    else Plain(b)
  }

  // Exactly those bytes stand for themselves that may.
  lemma EscapedWhenNeeded(b: Byte)
    ensures CharText(CharFor(b)) == [b] <==> ValidChar(Plain(b))
  {
  }

  function CharsFor(text: seq<Byte>): (chars: seq<Char>)
    ensures ValidChars(chars) && |chars| == |text|
  {
    if text == [] then [] else [CharFor(text[0])] + CharsFor(text[1..])
  }

  lemma {:induction false} CharsForMeaning(text: seq<Byte>)
    ensures CharsMeaning(CharsFor(text)) == text
  {
    if text != [] {
      CharsForMeaning(text[1..]);
      ConsChars(CharFor(text[0]), CharsFor(text[1..]));
    }
  }

  lemma {:induction false} CharsForMore(text: seq<Byte>, b: Byte)
    ensures CharsFor(text + [b]) == CharsFor(text) + [CharFor(b)]
  {
    if text == [] {
      assert text + [b] == [b] && [b][1..] == [];
    } else {
      assert (text + [b])[1..] == text[1..] + [b];
      CharsForMore(text[1..], b);
    }
  }

  lemma {:induction false} CharsTextMore(chars: seq<Char>, c: Char)
    ensures CharsText(chars + [c]) == CharsText(chars) + CharText(c)
  {
    if chars == [] {
      assert chars + [c] == [c] && [c][1..] == [];
    } else {
      assert (chars + [c])[1..] == chars[1..] + [c];
      CharsTextMore(chars[1..], c);
      Associates(CharText(chars[0]), CharsText(chars[1..]), CharText(c));
    }
  }

  lemma Associates(a: seq<Byte>, b: seq<Byte>, c: seq<Byte>)
    ensures a + (b + c) == (a + b) + c
  {
  }

  // What is written for one byte.
  method Append(before: seq<Byte>, c: Byte) returns (out: seq<Byte>)
    ensures out == before + CharText(CharFor(c))
  {
    out := before;
    if c == QUOTE || c == BACKSLASH {
      out := out + [BACKSLASH];
      out := out + [c];
    } else if c < 0x20 {
      out := out + [BACKSLASH, LETTER_U, ZERO, ZERO, HexDigit(c / 16), HexDigit(c % 16)];
    } else {
      out := out + [c];
    }
  }

  // json_string: the text as a JSON string of the grammar.
  method JsonString(text: seq<Byte>) returns (out: seq<Byte>)
    ensures out == StringText(CharsFor(text))
  {
    out := [QUOTE];
    for k := 0 to |text|
      invariant out == Begun(text[..k])
    {
      out := Append(out, text[k]);
      BegunMore(text[..k], text[k]);
      assert text[..k] + [text[k]] == text[..k + 1];
    }
    assert text[..|text|] == text;
    out := out + [QUOTE];
    assert out == StringText(CharsFor(text));
  }

  // A string up to, but not with, its closing quote.
  function Begun(text: seq<Byte>): (out: seq<Byte>) {
    [QUOTE] + CharsText(CharsFor(text))
  }

  lemma BegunMore(text: seq<Byte>, c: Byte)
    ensures Begun(text + [c]) == Begun(text) + CharText(CharFor(c))
  {
    CharsForMore(text, c);
    CharsTextMore(CharsFor(text), CharFor(c));
  }

  // Wherever a printed string stands, between whatever other bytes, the reader finds
  // exactly the printed bytes in it and stops just past its closing quote.
  lemma ReadsBackPrinted(s: seq<Byte>, i: nat, next: nat, text: seq<Byte>)
    requires i <= |s| && Spans(s, i, next, StringText(CharsFor(text)))
    ensures R.StringAt(s, i) == Some(Decoded(text, next))
  {
    var rest := CharsText(CharsFor(text)) + [QUOTE];
    assert StringText(CharsFor(text)) == [QUOTE] + rest;
    var start := SpansSplit(s, i, next, [QUOTE], rest);
    assert [] + [QUOTE] == [QUOTE];
    EatComplete(s, i, start, [], QUOTE, QUOTE);
    StringComplete(s, start, next, CharsFor(text));
    CharsForMeaning(text);
  }

  lemma SpansMiddle(before: seq<Byte>, bytes: seq<Byte>, after: seq<Byte>)
    ensures Spans(before + bytes + after, |before|, |before| + |bytes|, bytes)
  {
    var s := before + bytes + after;
    assert s[|before|..|before| + |bytes|] == bytes;
    SpansSlice(s, |before|, |before| + |bytes|, bytes);
  }

  // With a buffer that is too small, the reader keeps the first bytes and says so.
  method ReadBack(before: seq<Byte>, text: seq<Byte>, after: seq<Byte>, target: array<Byte>)
    returns (size: nat, clipped: bool)
    modifies target
    ensures size == if |text| <= target.Length then |text| else target.Length
    ensures target[..size] == text[..size] && clipped == (|text| > target.Length)
  {
    var printed := JsonString(text);
    var reader := new R.Reader(before + printed + after);
    reader.position := |before|;
    SpansMiddle(before, printed, after);
    ReadsBackPrinted(before + printed + after, |before|, |before| + |printed|, text);
    var ok;
    ok, size, clipped := reader.String(target);
  }
}
