/**
 UTF-8 well-formedness: the library's arithmetic decoder against the grammar of
 section 4 of RFC 3629, and what cutting a well-formed text short leaves of it.
 */
module Utf8 {

  type Byte = b: int | 0 <= b < 256

  // ----- The grammar of section 4 of RFC 3629 ---------------------------------------

  predicate Tail(b: Byte) {
    0x80 <= b <= 0xBF
  }

  predicate Char1(c: seq<Byte>) {
    |c| == 1 && c[0] <= 0x7F
  }

  predicate Char2(c: seq<Byte>) {
    |c| == 2 && 0xC2 <= c[0] <= 0xDF && Tail(c[1])
  }

  predicate Char3(c: seq<Byte>) {
    && |c| == 3
    && Tail(c[2])
    && (|| (c[0] == 0xE0 && 0xA0 <= c[1] <= 0xBF)
        || (0xE1 <= c[0] <= 0xEC && Tail(c[1]))
        || (c[0] == 0xED && 0x80 <= c[1] <= 0x9F)
        || (0xEE <= c[0] <= 0xEF && Tail(c[1])))
  }

  predicate Char4(c: seq<Byte>) {
    && |c| == 4
    && Tail(c[2]) && Tail(c[3])
    && (|| (c[0] == 0xF0 && 0x90 <= c[1] <= 0xBF)
        || (0xF1 <= c[0] <= 0xF3 && Tail(c[1]))
        || (c[0] == 0xF4 && 0x80 <= c[1] <= 0x8F))
  }

  predicate Utf8Char(c: seq<Byte>) {
    Char1(c) || Char2(c) || Char3(c) || Char4(c)
  }

  function Concat(chars: seq<seq<Byte>>): (text: seq<Byte>) {
    if chars == [] then [] else chars[0] + Concat(chars[1..])
  }

  ghost predicate AllChars(chars: seq<seq<Byte>>) {
    forall i :: 0 <= i < |chars| ==> Utf8Char(chars[i])
  }

  // UTF8-octets: any number of characters.
  ghost predicate Octets(text: seq<Byte>) {
    exists chars: seq<seq<Byte>> :: AllChars(chars) && Concat(chars) == text
  }

  // The length of the one character that can begin a text, 0 when none does.
  function CharLength(text: seq<Byte>): (n: nat)
    ensures n <= |text|
    ensures n > 0 ==> Utf8Char(text[..n])
    ensures forall k :: 0 < k <= |text| && Utf8Char(text[..k]) ==> k == n
  {
    if |text| >= 1 && Char1(text[..1]) then 1
    else if |text| >= 2 && Char2(text[..2]) then 2
    else if |text| >= 3 && Char3(text[..3]) then 3
    else if |text| >= 4 && Char4(text[..4]) then 4
    else 0
  }

  // A text cut into characters from the left.
  predicate WellFormed(text: seq<Byte>) {
    text == [] || (CharLength(text) > 0 && WellFormed(text[CharLength(text)..]))
  }

  lemma {:induction false} WellFormedIsOctets(text: seq<Byte>)
    ensures WellFormed(text) <==> Octets(text)
  {
    if WellFormed(text) {
      var chars := CutIntoChars(text);
    }
    if Octets(text) {
      var chars: seq<seq<Byte>> :| AllChars(chars) && Concat(chars) == text;
      CharsAreWellFormed(chars);
    }
  }

  lemma {:induction false} CutIntoChars(text: seq<Byte>) returns (chars: seq<seq<Byte>>)
    requires WellFormed(text)
    ensures AllChars(chars) && Concat(chars) == text
  {
    if text == [] {
      chars := [];
    } else {
      var n := CharLength(text);
      var rest := CutIntoChars(text[n..]);
      chars := [text[..n]] + rest;
      assert chars[1..] == rest;
    }
  }

  lemma {:induction false} CharsAreWellFormed(chars: seq<seq<Byte>>)
    requires AllChars(chars)
    ensures WellFormed(Concat(chars))
  {
    if chars != [] {
      CharsAreWellFormed(chars[1..]);
      PrependChar(chars[0], Concat(chars[1..]));
    }
  }

  lemma PrependChar(c: seq<Byte>, rest: seq<Byte>)
    requires Utf8Char(c)
    ensures CharLength(c + rest) == |c|
    ensures WellFormed(c + rest) <==> WellFormed(rest)
  {
    assert (c + rest)[..|c|] == c && (c + rest)[|c|..] == rest;
  }

  lemma {:induction false} WellFormedConcat(a: seq<Byte>, b: seq<Byte>)
    requires WellFormed(a)
    ensures WellFormed(a + b) <==> WellFormed(b)
  {
    if a == [] {
      assert a + b == b;
    } else {
      var n := CharLength(a);
      WellFormedConcat(a[n..], b);
      Recut(a, b, n);
      PrependChar(a[..n], a[n..] + b);
    }
  }

  lemma Recut<T>(a: seq<T>, b: seq<T>, n: nat)
    requires n <= |a|
    ensures a + b == a[..n] + (a[n..] + b)
  {
    assert a == a[..n] + a[n..];
  }

  lemma NotInside(text: seq<Byte>, n: nat, at: nat)
    requires n <= |text| && Utf8Char(text[..n])
    requires 0 < at < |text| && !Tail(text[at])
    ensures n <= at
  {
    assert forall i :: 0 <= i < n ==> text[..n][i] == text[i];
  }

  // A well-formed text can be cut at any byte that is not a continuation byte.
  lemma {:induction false} CutAtLead(text: seq<Byte>, at: nat)
    requires WellFormed(text) && at <= |text|
    requires at < |text| ==> !Tail(text[at])
    ensures WellFormed(text[..at]) && WellFormed(text[at..])
  {
    if at == 0 || at == |text| {
      assert text[..at] == [] || text[..at] == text;
      assert text[at..] == [] || text[at..] == text;
    } else {
      var n := CharLength(text);
      NotInside(text, n, at);
      CutAtLead(text[n..], at - n);
      SplitPrefix(text, n, at);
      assert text[n..][at - n..] == text[at..];
      PrependChar(text[..n], text[n..][..at - n]);
    }
  }

  lemma SplitPrefix(text: seq<Byte>, n: nat, at: nat)
    requires n <= at <= |text|
    ensures text[..at] == text[..n] + text[n..][..at - n]
  {
  }

  // Any prefix of a well-formed text is at most three bytes longer than a well-formed one.
  lemma {:induction false} PrefixNearlyWellFormed(text: seq<Byte>, n: nat) returns (k: nat)
    requires WellFormed(text) && n <= |text|
    ensures k <= n <= k + 3 && WellFormed(text[..k])
  {
    var first := CharLength(text);
    if n < first || text == [] {
      k := 0;
    } else {
      var rest := PrefixNearlyWellFormed(text[first..], n - first);
      k := first + rest;
      assert text[..k] == text[..first] + text[first..][..rest];
      PrependChar(text[..first], text[first..][..rest]);
    }
  }

  // ----- The library's decoder --------------------------------------------------------

  // How many continuation bytes the leading byte announces, or none for a byte that
  // cannot lead.
  function Extra(lead: Byte): (extra: int)
    ensures -1 <= extra <= 3
  {
    if lead < 0x80 then 0
    else if 0xC0 <= lead < 0xE0 then 1
    else if 0xE0 <= lead < 0xF0 then 2
    else if 0xF0 <= lead < 0xF8 then 3
    else -1
  }

  // The payload bits of a leading and of a continuation byte.
  function LeadBits(lead: Byte): (bits: nat)
    requires Extra(lead) >= 0
  {
    match Extra(lead)
    case 0 => lead
    case 1 => lead - 0xC0
    case 2 => lead - 0xE0
    case _ => lead - 0xF0
  }

  function TailBits(b: Byte): (bits: nat)
    ensures Tail(b) ==> bits == b - 0x80
  {
    b % 0x40
  }

  function MinScalar(extra: int): nat {
    match extra
    case 1 => 0x80
    case 2 => 0x800
    case 3 => 0x1_0000
    case _ => 0
  }

  predicate ValidScalar(cp: int) {
    0 <= cp <= 0x10_FFFF && !(0xD800 <= cp <= 0xDFFF)
  }

  // The scalar that a leading byte and continuation bytes spell.
  function Accumulate(c: seq<Byte>): (cp: nat)
    requires c != [] && Extra(c[0]) >= 0
  {
    if |c| == 1 then LeadBits(c[0]) else Accumulate(c[..|c| - 1]) * 0x40 + TailBits(c[|c| - 1])
  }

  // decode_at: the length of the well-formed sequence at a position and the scalar it
  // spells, or no length at all.
  method DecodeAt(text: seq<Byte>, start: nat) returns (length: nat, scalar: nat)
    requires start < |text|
    ensures length == CharLength(text[start..])
    ensures length > 0 ==> scalar == Accumulate(text[start..start + length])
  {
    var lead := text[start];
    var extra := Extra(lead);
    if extra < 0 || start + 1 + extra > |text| {
      return 0, 0xFFFD;
    }
    scalar := LeadBits(lead);
    length := 1;
    while length <= extra
      invariant 1 <= length <= extra + 1
      invariant forall i :: start < i < start + length ==> Tail(text[i])
      invariant scalar == Accumulate(text[start..start + length])
    {
      var b := text[start + length];
      if !Tail(b) {
        return 0, 0xFFFD;
      }
      ghost var longer := text[start..start + length + 1];
      assert longer[..length] == text[start..start + length];
      scalar := scalar * 0x40 + TailBits(b);
      length := length + 1;
    }
    CheckedByScalar(text[start..start + length]);
    assert text[start..][..length] == text[start..start + length];
    if scalar < MinScalar(extra) || !ValidScalar(scalar) {
      return 0, 0xFFFD;
    }
  }

  // A leading byte with the continuation bytes it announces is a character exactly when
  // the scalar it spells is in range and not overlong.
  lemma CheckedByScalar(c: seq<Byte>)
    requires c != [] && Extra(c[0]) == |c| - 1
    requires forall i :: 1 <= i < |c| ==> Tail(c[i])
    ensures Utf8Char(c) <==> Accumulate(c) >= MinScalar(Extra(c[0])) && ValidScalar(Accumulate(c))
  {
    Spelled(c);
    if |c| == 4 {
      Range4(c[0], c[1], c[2], c[3]);
    }
  }

  lemma Range4(b0: Byte, b1: Byte, b2: Byte, b3: Byte)
    requires 0xF0 <= b0 < 0xF8 && Tail(b1) && Tail(b2) && Tail(b3)
    ensures var cp := (((b0 - 0xF0) * 0x40 + b1 - 0x80) * 0x40 + b2 - 0x80) * 0x40 + b3 - 0x80;
            Char4([b0, b1, b2, b3]) <==> 0x1_0000 <= cp <= 0x10_FFFF
  {
  }

  // The accumulated scalar, written out for each length.
  lemma Spelled(c: seq<Byte>)
    requires c != [] && Extra(c[0]) == |c| - 1
    ensures |c| == 1 ==> Accumulate(c) == LeadBits(c[0])
    ensures |c| == 2 ==> Accumulate(c) == LeadBits(c[0]) * 0x40 + TailBits(c[1])
    ensures |c| == 3 ==> Accumulate(c) == (LeadBits(c[0]) * 0x40 + TailBits(c[1])) * 0x40 + TailBits(c[2])
    ensures |c| == 4 ==>
      Accumulate(c) == ((LeadBits(c[0]) * 0x40 + TailBits(c[1])) * 0x40 + TailBits(c[2])) * 0x40 + TailBits(c[3])
  {
    AccumulateStep(c);
    if |c| > 1 {
      AccumulateStep(c[..|c| - 1]);
    }
    if |c| > 2 {
      assert c[..|c| - 1][..|c| - 2] == c[..|c| - 2];
      AccumulateStep(c[..|c| - 2]);
    }
    if |c| > 3 {
      assert c[..2][..1] == c[..1];
      AccumulateStep(c[..1]);
    }
  }

  lemma AccumulateStep(c: seq<Byte>)
    requires c != [] && Extra(c[0]) >= 0
    ensures |c| == 1 ==> Accumulate(c) == LeadBits(c[0])
    ensures |c| > 1 ==> Accumulate(c) == Accumulate(c[..|c| - 1]) * 0x40 + TailBits(c[|c| - 1])
  {
  }

  // is_valid: the whole text is well formed.
  method IsValid(text: seq<Byte>) returns (valid: bool)
    ensures valid <==> WellFormed(text)
  {
    var pos := 0;
    while pos < |text|
      invariant pos <= |text|
      invariant WellFormed(text) <==> WellFormed(text[pos..])
    {
      var length, _ := DecodeAt(text, pos);
      if length == 0 {
        return false;
      }
      assert text[pos..][length..] == text[pos + length..];
      pos := pos + length;
    }
    return true;
  }

  // ----- Scalars and characters ------------------------------------------------------

  // The bytes a string escape puts for a scalar: its base-64 digits, the first marked
  // with the length and the others as continuation bytes.
  function Encode(scalar: nat): (c: seq<Byte>)
    requires scalar <= 0x10_FFFF
  {
    var high := scalar / 0x40;
    var top := high / 0x40;
    if scalar < 0x80 then [scalar]
    else if scalar < 0x800 then [0xC0 + high, 0x80 + scalar % 0x40]
    else if scalar < 0x1_0000 then [0xE0 + top, 0x80 + high % 0x40, 0x80 + scalar % 0x40]
    else [0xF0 + top / 0x40, 0x80 + top % 0x40, 0x80 + high % 0x40, 0x80 + scalar % 0x40]
  }

  // Encoding maps the Unicode scalars one to one onto the characters of the grammar.
  lemma EncodeIsChar(scalar: nat)
    requires ValidScalar(scalar)
    ensures Utf8Char(Encode(scalar)) && Accumulate(Encode(scalar)) == scalar
  {
    var c := Encode(scalar);
    Spelled(c);
    var high := scalar / 0x40;
    var top := high / 0x40;
    assert scalar == high * 0x40 + scalar % 0x40;
    assert high == top * 0x40 + high % 0x40;
    assert top == top / 0x40 * 0x40 + top % 0x40;
    CheckedByScalar(c);
  }

  lemma CharIsEncoded(c: seq<Byte>)
    requires Utf8Char(c)
    ensures ValidScalar(Accumulate(c)) && Encode(Accumulate(c)) == c
  {
    CheckedByScalar(c);
    Spelled(c);
    if |c| == 2 {
      BaseDigit(LeadBits(c[0]), TailBits(c[1]));
    } else if |c| == 3 {
      BaseDigit(LeadBits(c[0]), TailBits(c[1]));
      BaseDigit(LeadBits(c[0]) * 0x40 + TailBits(c[1]), TailBits(c[2]));
    } else if |c| == 4 {
      EncodeFour(LeadBits(c[0]), TailBits(c[1]), TailBits(c[2]), TailBits(c[3]));
    }
  }

  lemma EncodeFour(a: nat, b: nat, c: nat, d: nat)
    requires a < 8 && b < 0x40 && c < 0x40 && d < 0x40
    requires 0x1_0000 <= ((a * 0x40 + b) * 0x40 + c) * 0x40 + d <= 0x10_FFFF
    ensures Encode(((a * 0x40 + b) * 0x40 + c) * 0x40 + d) == [0xF0 + a, 0x80 + b, 0x80 + c, 0x80 + d]
  {
    BaseDigit(a, b);
    BaseDigit(a * 0x40 + b, c);
    BaseDigit((a * 0x40 + b) * 0x40 + c, d);
  }

  lemma BaseDigit(high: nat, low: nat)
    requires low < 0x40
    ensures (high * 0x40 + low) / 0x40 == high && (high * 0x40 + low) % 0x40 == low
  {
  }
}
