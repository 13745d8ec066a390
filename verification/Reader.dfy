/**
 The envelope reader as a class: methods that move a position through the text and
 decode strings into bounded buffers, each tied to the parser of the grammar.
 */
module Reader {
  import opened Wrappers
  import opened Utf8
  import opened JsonGrammar
  import opened JsonScanner
  import opened JsonParser

  // A bounded buffer after bytes were put into it: the first of them that fit, and
  // whether any did not.
  predicate Holds(target: seq<Byte>, size: nat, clipped: bool, put: seq<Byte>) {
    && size == (if |put| <= |target| then |put| else |target|)
    && target[..size] == put[..size]
    && clipped == (|put| > |target|)
  }

  class Reader {
    const text: seq<Byte>
    var position: nat
    var limited: bool

    constructor (text: seq<Byte>)
      ensures this.text == text && position == 0 && !limited
    {
      this.text := text;
      position, limited := 0, false;
    }

    predicate Valid()
      reads this
    {
      position <= |text|
    }

    method Whitespace()
      requires Valid()
      modifies `position
      ensures Valid() && position == SkipSpace(text, old(position))
    {
      while position < |text| && IsSpace(text[position])
        invariant Valid() && SkipSpace(text, position) == SkipSpace(text, old(position))
      {
        position := position + 1;
      }
    }

    method Eat(b: Byte) returns (ok: bool)
      requires Valid()
      modifies `position
      ensures Valid() && ok == JsonScanner.Eat(text, old(position), b).Some?
      ensures position == SkipSpace(text, old(position)) + (if ok then 1 else 0)
      ensures ok ==> position == JsonScanner.Eat(text, old(position), b).value
    {
      Whitespace();
      if position >= |text| || text[position] != b {
        return false;
      }
      position := position + 1;
      return true;
    }

    // digits: a run of digits, and whether there was any.
    method DigitRun() returns (found: bool)
      requires Valid()
      modifies `position
      ensures Valid() && position == SkipDigits(text, old(position)) && found == (position != old(position))
    {
      var start := position;
      while position < |text| && IsDigit(text[position])
        invariant start <= position && Valid() && SkipDigits(text, position) == SkipDigits(text, start)
      {
        position := position + 1;
      }
      return start != position;
    }

    method HexFour() returns (code: Option<nat>)
      requires Valid()
      modifies `position
      ensures Valid() && old(position) <= position && code == Hex4At(text, old(position))
      ensures code.Some? ==> position == old(position) + 4
    {
      if |text| - position < 4 {
        return None;
      }
      var start, result := position, 0;
      for index := 0 to 4
        invariant position == start + index && start + 4 <= |text|
        invariant forall k :: start <= k < start + index ==> IsHex(text[k])
        invariant result == HexPrefix(text, start, index)
      {
        var b := text[position];
        position := position + 1;
        if !IsHex(b) {
          assert text[start..start + 4][index] == b;
          return None;
        }
        result := result * 16 + HexValue(b);
      }
      HexPrefixFour(text, start);
      return Some(result);
    }

    lemma HexPrefixFour(s: seq<Byte>, start: nat)
      requires start + 4 <= |s| && forall k :: start <= k < start + 4 ==> IsHex(s[k])
      ensures IsHex4(s[start..start + 4]) && HexPrefix(s, start, 4) == Hex4Value(s[start..start + 4])
    {
      assert HexPrefix(s, start, 1) == HexPrefix(s, start, 0) * 16 + HexValue(s[start]);
      assert HexPrefix(s, start, 2) == HexValue(s[start]) * 16 + HexValue(s[start + 1]);
      assert HexPrefix(s, start, 3) == HexPrefix(s, start, 2) * 16 + HexValue(s[start + 2]);
    }

    ghost function HexPrefix(s: seq<Byte>, start: nat, count: nat): nat
      requires start + count <= |s| && forall k :: start <= k < start + count ==> IsHex(s[k])
    {
      if count == 0 then 0 else HexPrefix(s, start, count - 1) * 16 + HexValue(s[start + count - 1])
    }

    // put: one byte into a bounded buffer.
    static method Put(target: array<Byte>, size: nat, clipped: bool, b: Byte, ghost put: seq<Byte>)
      returns (size': nat, clipped': bool)
      requires Holds(target[..], size, clipped, put)
      modifies target
      ensures Holds(target[..], size', clipped', put + [b])
    {
      size', clipped' := size, clipped;
      if size < target.Length {
        ghost var before := target[..];
        target[size] := b;
        size' := size + 1;
        assert target[..size'] == before[..size] + [b];
      } else {
        clipped' := true;
      }
    }

    static method PutAll(target: array<Byte>, size: nat, clipped: bool, bytes: seq<Byte>, ghost put: seq<Byte>)
      returns (size': nat, clipped': bool)
      requires Holds(target[..], size, clipped, put)
      modifies target
      ensures Holds(target[..], size', clipped', put + bytes)
    {
      size', clipped' := size, clipped;
      assert put + bytes[..0] == put;
      for k := 0 to |bytes|
        invariant Holds(target[..], size', clipped', put + bytes[..k])
      {
        size', clipped' := Put(target, size', clipped', bytes[k], put + bytes[..k]);
        assert (put + bytes[..k]) + [bytes[k]] == put + bytes[..k + 1];
      }
      assert put + bytes[..|bytes|] == put + bytes;
    }

    // The scalar of a \u escape whose letter has been read.
    method UnicodeScalar() returns (scalar: Option<nat>)
      requires Valid()
      modifies `position
      ensures Valid() && old(position) <= position
      ensures var piece := UnicodePiece(text, old(position));
              if scalar.Some? then scalar.value <= 0x10_FFFF && piece == Piece.Put(Encode(scalar.value), position)
              else piece == Bad
    {
      var code := HexFour();
      if code == None {
        return None;
      }
      scalar := code;
      if 0xD800 <= scalar.value <= 0xDBFF {
        if position + 2 > |text| || text[position] != BACKSLASH || text[position + 1] != LETTER_U {
          return None;
        }
        position := position + 2;
        code := HexFour();
        if code == None || code.value < 0xDC00 || code.value > 0xDFFF {
          return None;
        }
        scalar := Some(0x1_0000 + (scalar.value - 0xD800) * 0x400 + (code.value - 0xDC00));
      } else if 0xDC00 <= scalar.value <= 0xDFFF {
        return None;
      }
    }

    // One turn of the string loop: a character, the closing quote or an error.
    method StringTurn(target: array<Byte>, size: nat, clipped: bool, ghost done: seq<Byte>)
      returns (more: bool, closed: bool, size': nat, clipped': bool, ghost meaning: seq<Byte>)
      requires Valid() && position < |text| && Holds(target[..], size, clipped, done)
      modifies `position, target
      ensures Valid() && old(position) <= position
      ensures Holds(target[..], size', clipped', if more then done + meaning else done)
      ensures if more then PieceAt(text, old(position)) == Piece.Put(meaning, position)
              else if closed then PieceAt(text, old(position)).Close? && position == old(position) + 1
              else PieceAt(text, old(position)).Bad?
    {
      more, closed, size', clipped', meaning := false, false, size, clipped, [];
      var b := text[position];
      position := position + 1;
      if b == QUOTE {
        closed := true;
        return;
      }
      if b < 32 {
        return;
      }
      if b != BACKSLASH {
        meaning := [b];
        size', clipped' := Put(target, size, clipped, b, done);
        more := true;
        return;
      }
      if position == |text| {
        return;
      }
      var escape := text[position];
      position := position + 1;
      if IsShort(escape) {
        meaning := [ShortMeaning(escape)];
        size', clipped' := Put(target, size, clipped, ShortMeaning(escape), done);
        more := true;
      } else if escape == LETTER_U {
        var scalar := UnicodeScalar();
        if scalar.Some? {
          meaning := Encode(scalar.value);
          size', clipped' := PutAll(target, size, clipped, Encode(scalar.value), done);
          more := true;
        }
      }
    }

    // string: decodes into the target what fits of the bytes the string stands for.
    method String(target: array<Byte>) returns (ok: bool, size: nat, clipped: bool)
      requires Valid()
      modifies `position, target
      ensures Valid() && old(position) <= position
      ensures ok == StringAt(text, old(position)).Some?
      ensures ok ==> position == StringAt(text, old(position)).value.next
      ensures ok ==> Holds(target[..], size, clipped, StringAt(text, old(position)).value.meaning)
    {
      size, clipped := 0, false;
      ok := Eat(QUOTE);
      if !ok {
        return;
      }
      ghost var start, done, meaning := position, [], [];
      var more, closed;
      while position < |text|
        invariant start <= |text| && Valid() && old(position) <= position && Holds(target[..], size, clipped, done)
        invariant ContinuesFrom(text, start, position, done)
        decreases |text| - position
      {
        ghost var at := position;
        more, closed, size, clipped, meaning := StringTurn(target, size, clipped, done);
        if !more {
          return closed, size, clipped;
        }
        StringStep(text, start, at, position, done, meaning);
        done := done + meaning;
      }
      return false, size, clipped;
    }

    // The number that starts at the position, part by part.
    method Number() returns (ok: bool)
      requires position < |text|
      modifies `position
      ensures Valid() && old(position) <= position && ok == NumberEnd(text, old(position)).Some?
      ensures ok ==> position == NumberEnd(text, old(position)).value
    {
      if text[position] == MINUS {
        position := position + 1;
      }
      ok := Whole();
      if ok {
        ok := Fraction();
      }
      if ok {
        ok := Exponent();
      }
    }

    method Whole() returns (ok: bool)
      requires Valid()
      modifies `position
      ensures Valid() && old(position) <= position && ok == WholeEnd(text, old(position)).Some?
      ensures ok ==> position == WholeEnd(text, old(position)).value
    {
      if position == |text| {
        return false;
      }
      if text[position] == ZERO {
        position := position + 1;
        return true;
      }
      if text[position] < 0x31 || text[position] > 0x39 {
        return false;
      }
      ok := DigitRun();
    }

    method Fraction() returns (ok: bool)
      requires Valid()
      modifies `position
      ensures Valid() && old(position) <= position && ok == FractionEnd(text, old(position)).Some?
      ensures ok ==> position == FractionEnd(text, old(position)).value
    {
      ok := true;
      if position < |text| && text[position] == DOT {
        position := position + 1;
        ok := DigitRun();
      }
    }

    method Exponent() returns (ok: bool)
      requires Valid()
      modifies `position
      ensures Valid() && old(position) <= position && ok == ExponentEnd(text, old(position)).Some?
      ensures ok ==> position == ExponentEnd(text, old(position)).value
    {
      ok := true;
      if position < |text| && (text[position] == 0x65 || text[position] == 0x45) {
        position := position + 1;
        if position < |text| && IsSign(text[position]) {
          position := position + 1;
        }
        ok := DigitRun();
      }
    }

    // What a call that tries to read to an outcome leaves behind.
    twostate predicate Reads(r: Outcome, ok: bool)
      reads this
    {
      && Valid() && old(position) <= position
      && ok == r.Accept?
      && (ok ==> position == r.next)
      && limited == (old(limited) || r.TooDeep?)
    }

    // value: one value at the given depth.
    method Value(depth: nat) returns (ok: bool)
      requires Valid()
      modifies this
      ensures Reads(ParseValue(text, old(position), depth), ok)
      decreases |text| - position, 1
    {
      Whitespace();
      SkipTwice(text, old(position));
      if position == |text| {
        return false;
      }
      if depth > MAX_DEPTH {
        limited := true;
        return false;
      }
      if text[position] == QUOTE {
        ok := SkipString();
        return;
      }
      if text[position] == 0x7B || text[position] == 0x5B {
        ok := Container(depth);
        return;
      }
      ok := Scalar();
    }

    // A string whose bytes are not kept.
    method SkipString() returns (ok: bool)
      requires Valid()
      modifies `position
      ensures Valid() && old(position) <= position && ok == StringAt(text, old(position)).Some?
      ensures ok ==> position == StringAt(text, old(position)).value.next
    {
      var nowhere := new Byte[0];
      var size, clipped;
      ok, size, clipped := String(nowhere);
    }

    method Scalar() returns (ok: bool)
      requires position < |text|
      modifies `position
      ensures Valid() && old(position) <= position && ok == ScalarEnd(text, old(position)).Accept?
      ensures ok ==> position == ScalarEnd(text, old(position)).next
    {
      if StartsWith(text, position, NULL) {
        position := position + 4;
        return true;
      }
      if StartsWith(text, position, TRUE) {
        position := position + 4;
        return true;
      }
      if StartsWith(text, position, FALSE) {
        position := position + 5;
        return true;
      }
      ok := Number();
    }

    // An object or array whose opening bracket is at the position.
    method Container(depth: nat) returns (ok: bool)
      requires position < |text| && depth <= MAX_DEPTH
      requires text[position] == 0x7B || text[position] == 0x5B
      modifies this
      ensures Reads(ParseValue(text, old(position), depth), ok)
      decreases |text| - position, 0
    {
      var keyed := text[position] == 0x7B;
      ContainerParses(text, position, depth, keyed);
      position := position + 1;
      ok := Inside(depth, keyed);
    }

    // What follows an opening bracket.
    method Inside(depth: nat, keyed: bool) returns (ok: bool)
      requires Valid()
      modifies this
      ensures Reads(ParseInside(text, old(position), depth, keyed), ok)
      decreases |text| - position, 4
    {
      ok := Eat(Closer(keyed));
      if !ok {
        ok := Items(depth, keyed);
      }
    }

    // The loop over the elements or members of a container.
    method Items(depth: nat, keyed: bool) returns (ok: bool)
      requires Valid()
      modifies this
      ensures Reads(ParseItems(text, old(position), depth, keyed), ok)
      decreases |text| - position, 3
    {
      var last := false;
      ok := true;
      while ok && !last
        invariant Valid() && old(position) <= position && (ok && !last ==> limited == old(limited))
        invariant if !ok || last then Reads(ParseItems(text, old(position), depth, keyed), ok)
                  else ParseItems(text, position, depth, keyed) == ParseItems(text, old(position), depth, keyed)
        decreases ok && !last, |text| - position
      {
        ok, last := Item(depth, keyed);
      }
    }

    // One element or member, with the separator or closing bracket after it.
    method Item(depth: nat, keyed: bool) returns (ok: bool, last: bool)
      requires Valid()
      modifies this
      ensures Valid() && old(position) <= position
      ensures if !ok || last then Reads(ParseItems(text, old(position), depth, keyed), ok)
              else old(position) < position && limited == old(limited) &&
                   ParseItems(text, position, depth, keyed) == ParseItems(text, old(position), depth, keyed)
      decreases |text| - position, 2
    {
      last := false;
      ok := Tag(keyed);
      if ok {
        ok := Value(depth + 1);
      }
      if ok {
        ok, last := Separator(keyed);
      }
    }

    // What follows an element or member: the closing bracket, or a comma and more of them.
    method Separator(keyed: bool) returns (ok: bool, last: bool)
      requires Valid()
      modifies `position
      ensures Valid() && old(position) <= position && last == JsonScanner.Eat(text, old(position), Closer(keyed)).Some?
      ensures ok == (last || JsonScanner.Eat(text, old(position), COMMA).Some?)
      ensures ok ==> JsonScanner.Eat(text, old(position), if last then Closer(keyed) else COMMA) == Some(position)
    {
      last := Eat(Closer(keyed));
      ok := last;
      if !ok {
        SkipTwice(text, old(position));
        ok := Eat(COMMA);
      }
    }

    // The name and colon of an object member.
    method Tag(keyed: bool) returns (ok: bool)
      requires Valid()
      modifies `position
      ensures Valid() && old(position) <= position && ok == TagEnd(text, old(position), keyed).Some?
      ensures ok ==> position == TagEnd(text, old(position), keyed).value
    {
      if !keyed {
        return true;
      }
      ok := SkipString();
      if ok {
        ok := Eat(COLON);
      }
    }
  }

  // Skipping blanks twice is skipping them once.
  lemma SkipTwice(s: seq<Byte>, i: nat)
    requires i <= |s|
    ensures SkipSpace(s, SkipSpace(s, i)) == SkipSpace(s, i)
    ensures forall b :: JsonScanner.Eat(s, SkipSpace(s, i), b) == JsonScanner.Eat(s, i, b)
  {
  }

  // What is parsed at an opening bracket.
  // The outcome behind an opening bracket.
  function ParseInside(s: seq<Byte>, i: nat, depth: nat, keyed: bool): (r: Outcome)
    requires i <= |s|
  {
    match JsonScanner.Eat(s, i, Closer(keyed))
    case Some(next) => Accept(next)
    case None => ParseItems(s, SkipSpace(s, i), depth, keyed)
  }

  lemma ContainerParses(s: seq<Byte>, i: nat, depth: nat, keyed: bool)
    requires i < |s| && depth <= MAX_DEPTH && s[i] == Opener(keyed)
    ensures ParseValue(s, i, depth) == ParseInside(s, i + 1, depth, keyed)
  {
    OpenerParses(s, i, depth, keyed);
    ItemsSkip(s, i + 1, depth, keyed);
  }

  lemma OpenerParses(s: seq<Byte>, i: nat, depth: nat, keyed: bool)
    requires i < |s| && depth <= MAX_DEPTH && s[i] == Opener(keyed)
    ensures ParseValue(s, i, depth) ==
            match JsonScanner.Eat(s, i + 1, Closer(keyed))
            case Some(next) => Accept(next)
            case None => ParseItems(s, i + 1, depth, keyed)
  {
    assert SkipSpace(s, i) == i;
  }

  lemma ItemsSkip(s: seq<Byte>, i: nat, depth: nat, keyed: bool)
    requires i <= |s|
    ensures ParseItems(s, SkipSpace(s, i), depth, keyed) == ParseItems(s, i, depth, keyed)
  {
    SkipTwice(s, i);
    if !keyed {
      assert ParseValue(s, SkipSpace(s, i), depth + 1) == ParseValue(s, i, depth + 1);
    }
  }

  // A string at a position: blanks, then a quote, then the rest.
  function StringAt(s: seq<Byte>, i: nat): (r: Option<Decoded>)
    requires i <= |s|
    ensures r.Some? ==> i < r.value.next <= |s|
  {
    match Eat(s, i, QUOTE)
    case None => None
    case Some(start) => StringRest(s, start)
  }

  // What is left to read decides the outcome, after `done` has been decoded.
  ghost predicate ContinuesFrom(s: seq<Byte>, start: nat, i: nat, done: seq<Byte>)
    requires start <= |s| && i <= |s|
  {
    var whole, rest := StringRest(s, start), StringRest(s, i);
    && (whole.Some? <==> rest.Some?)
    && (rest.Some? ==> whole.value.meaning == done + rest.value.meaning && whole.value.next == rest.value.next)
  }

  lemma StringStep(s: seq<Byte>, start: nat, i: nat, j: nat, done: seq<Byte>, meaning: seq<Byte>)
    requires start <= |s| && i <= |s| && ContinuesFrom(s, start, i, done)
    requires PieceAt(s, i) == Put(meaning, j)
    ensures ContinuesFrom(s, start, j, done + meaning)
  {
    if StringRest(s, j).Some? {
      assert (done + meaning) + StringRest(s, j).value.meaning == done + (meaning + StringRest(s, j).value.meaning);
    }
  }
}
