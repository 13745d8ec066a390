/**
 The JSON grammar of sections 2 to 7 of RFC 8259, as concrete syntax trees and the
 bytes they spell. A text belongs to the grammar when some valid tree spells it.

 Bytes above 0x7F stand for themselves inside strings: the reader checks the whole
 text for well-formed UTF-8 first. Escaped surrogates are admitted only as pairs.
 */
module JsonGrammar {
  import opened Arithmetic
  import opened Utf8

  const QUOTE: Byte := 0x22
  const BACKSLASH: Byte := 0x5C
  const COLON: Byte := 0x3A
  const COMMA: Byte := 0x2C
  const MINUS: Byte := 0x2D
  const DOT: Byte := 0x2E
  const ZERO: Byte := 0x30
  const LETTER_U: Byte := 0x75

  // The signs of the grammar, as characters.
  lemma SignsAreSpelled(b: Byte)
    ensures QUOTE == '"' as int && BACKSLASH == '\\' as int && COLON == ':' as int && COMMA == ',' as int
    ensures MINUS == '-' as int && DOT == '.' as int && ZERO == '0' as int && LETTER_U == 'u' as int
    ensures Opener(true) == '{' as int && Closer(true) == '}' as int
    ensures Opener(false) == '[' as int && Closer(false) == ']' as int
    ensures IsSpace(b) <==> b == ' ' as int || b == '\t' as int || b == '\n' as int || b == '\r' as int
    ensures IsDigit(b) <==> '0' as int <= b <= '9' as int
  {
  }

  // The text between two positions is exactly the given bytes.
  predicate Spans(text: seq<Byte>, from: nat, to: nat, bytes: seq<Byte>)
    decreases |bytes|
  {
    if bytes == [] then from == to <= |text|
    else from < |text| && text[from] == bytes[0] && Spans(text, from + 1, to, bytes[1..])
  }

  lemma {:induction false} SpansSlice(text: seq<Byte>, from: nat, to: nat, bytes: seq<Byte>)
    ensures Spans(text, from, to, bytes) <==> from <= to <= |text| && text[from..to] == bytes
    decreases |bytes|
  {
    if bytes != [] {
      SpansSlice(text, from + 1, to, bytes[1..]);
      if from < to <= |text| {
        assert text[from..to] == [text[from]] + text[from + 1..to];
        assert bytes == [bytes[0]] + bytes[1..];
      }
    }
  }

  lemma SpansJoin(text: seq<Byte>, from: nat, mid: nat, to: nat, a: seq<Byte>, b: seq<Byte>)
    requires Spans(text, from, mid, a) && Spans(text, mid, to, b)
    ensures Spans(text, from, to, a + b)
  {
    SpansSlice(text, from, mid, a);
    SpansSlice(text, mid, to, b);
    SpansSlice(text, from, to, a + b);
    assert text[from..to] == text[from..mid] + text[mid..to];
  }

  lemma SpansSplit(text: seq<Byte>, from: nat, to: nat, a: seq<Byte>, b: seq<Byte>) returns (mid: nat)
    requires Spans(text, from, to, a + b)
    ensures Spans(text, from, mid, a) && Spans(text, mid, to, b)
    ensures from <= mid <= to && (b != [] ==> mid < to) && (a != [] ==> from < mid)
  {
    SpansSlice(text, from, to, a + b);
    mid := from + |a|;
    SpansSlice(text, from, mid, a);
    SpansSlice(text, mid, to, b);
    assert text[from..to][..|a|] == text[from..mid] && text[from..to][|a|..] == text[mid..to];
  }

  lemma SpansByte(text: seq<Byte>, from: nat, to: nat, b: Byte)
    ensures Spans(text, from, to, [b]) <==> from < |text| && text[from] == b && to == from + 1
  {
    assert [b][1..] == [];
  }

  lemma SpansInside(text: seq<Byte>, from: nat, to: nat, bytes: seq<Byte>)
    requires Spans(text, from, to, bytes)
    ensures from <= to <= |text| && to == from + |bytes|
    ensures bytes != [] ==> from < to && text[from] == bytes[0]
  {
    SpansSlice(text, from, to, bytes);
  }

  // ----- Insignificant whitespace (section 2) ---------------------------------------

  predicate IsSpace(b: Byte) {
    b == 0x20 || b == 0x09 || b == 0x0A || b == 0x0D
  }

  predicate Blank(text: seq<Byte>) {
    forall i :: 0 <= i < |text| ==> IsSpace(text[i])
  }

  // ----- Strings (section 7) ----------------------------------------------------------

  datatype Char =
    | Plain(byte: Byte)
    | Short(letter: Byte)
    | Unit(hex: seq<Byte>)
    | Pair(high: seq<Byte>, low: seq<Byte>)

  predicate IsDigit(b: Byte) {
    0x30 <= b <= 0x39
  }

  predicate IsHex(b: Byte) {
    IsDigit(b) || 0x61 <= b <= 0x66 || 0x41 <= b <= 0x46
  }

  function HexValue(b: Byte): (value: nat)
    requires IsHex(b)
    ensures value < 16
  {
    if IsDigit(b) then b - 0x30 else if b >= 0x61 then b - 0x61 + 10 else b - 0x41 + 10
  }

  predicate IsHex4(hex: seq<Byte>) {
    |hex| == 4 && forall i :: 0 <= i < 4 ==> IsHex(hex[i])
  }

  // Four hexadecimal digits, the most significant first.
  function Hex4Value(hex: seq<Byte>): (value: nat)
    requires IsHex4(hex)
    ensures value < 0x1_0000
  {
    ((HexValue(hex[0]) * 16 + HexValue(hex[1])) * 16 + HexValue(hex[2])) * 16 + HexValue(hex[3])
  }

  // A hexadecimal digit of either case.
  function HexDigit(n: nat, upper: bool): (digit: Byte)
    requires n < 16
  {
    if n < 10 then '0' as int + n else (if upper then 'A' as int else 'a' as int) + n - 10
  }

  lemma HexDigitReadsBack(b: Byte, n: nat)
    requires n < 16
    ensures b == HexDigit(n, true) || b == HexDigit(n, false) <==> IsHex(b) && HexValue(b) == n
  {
  }

  // Four digits are read as the one number that they spell, the most significant first.
  lemma Hex4ReadsBack(hex: seq<Byte>, code: nat)
    requires IsHex4(hex)
    ensures Hex4Value(hex) == code <==>
            && code < 0x1_0000
            && HexValue(hex[0]) == code / 4096 && HexValue(hex[1]) == code / 256 % 16
            && HexValue(hex[2]) == code / 16 % 16 && HexValue(hex[3]) == code % 16
  {
    HexParts(HexValue(hex[0]), HexValue(hex[1]), HexValue(hex[2]), HexValue(hex[3]));
    if code < 0x1_0000 {
      HexSum(code);
    }
  }

  lemma HexParts(a: nat, b: nat, c: nat, d: nat)
    requires a < 16 && b < 16 && c < 16 && d < 16
    ensures var code := ((a * 16 + b) * 16 + c) * 16 + d;
            code / 4096 == a && code / 256 % 16 == b && code / 16 % 16 == c && code % 16 == d
  {
    var code := ((a * 16 + b) * 16 + c) * 16 + d;
    DivUnique(code, 4096, a, b * 256 + c * 16 + d);
    DivUnique(code, 256, a * 16 + b, c * 16 + d);
    DivUnique(a * 16 + b, 16, a, b);
    DivUnique(code, 16, a * 256 + b * 16 + c, d);
    DivUnique(a * 256 + b * 16 + c, 16, a * 16 + b, c);
  }

  lemma HexSum(code: nat)
    requires code < 0x1_0000
    ensures ((code / 4096 * 16 + code / 256 % 16) * 16 + code / 16 % 16) * 16 + code % 16 == code
  {
    var q, d := code / 16, code % 16;
    var p, c := q / 16, q % 16;
    var a, b := p / 16, p % 16;
    HexParts(a, b, c, d);
  }

  predicate IsHighSurrogate(code: nat) {
    0xD800 <= code <= 0xDBFF
  }

  predicate IsLowSurrogate(code: nat) {
    0xDC00 <= code <= 0xDFFF
  }

  // The scalar that a surrogate pair stands for.
  function PairScalar(high: nat, low: nat): (scalar: nat)
    requires IsHighSurrogate(high) && IsLowSurrogate(low)
    ensures 0x1_0000 <= scalar <= 0x10_FFFF
  {
    0x1_0000 + (high - 0xD800) * 0x400 + (low - 0xDC00)
  }

  // The pairs stand for the scalars beyond the first plane, one pair for each.
  lemma PairsAreExactlyTheHighScalars(scalar: nat)
    requires 0x1_0000 <= scalar <= 0x10_FFFF
    ensures var high, low := 0xD800 + (scalar - 0x1_0000) / 0x400, 0xDC00 + (scalar - 0x1_0000) % 0x400;
            && IsHighSurrogate(high) && IsLowSurrogate(low) && PairScalar(high, low) == scalar
            && forall h, l :: IsHighSurrogate(h) && IsLowSurrogate(l) && PairScalar(h, l) == scalar ==>
                                h == high && l == low
  {
  }

  function ShortMeaning(letter: Byte): (b: Byte) {
    match letter
    case 0x62 => 0x08
    case 0x66 => 0x0C
    case 0x6E => 0x0A
    case 0x72 => 0x0D
    case 0x74 => 0x09
    case other => other
  }

  predicate IsShort(letter: Byte) {
    letter in {QUOTE, BACKSLASH, 0x2F, 0x62, 0x66, 0x6E, 0x72, 0x74}
  }

  // The escapes of two characters, and what they stand for.
  lemma ShortsMean(letter: Byte)
    ensures IsShort(letter) <==>
            letter in {'"' as int, '\\' as int, '/' as int, 'b' as int, 'f' as int, 'n' as int, 'r' as int, 't' as int}
    ensures ShortMeaning('b' as int) == '\U{8}' as int && ShortMeaning('f' as int) == '\U{C}' as int
    ensures ShortMeaning('n' as int) == '\n' as int && ShortMeaning('r' as int) == '\r' as int
    ensures ShortMeaning('t' as int) == '\t' as int
    ensures letter in {'"' as int, '\\' as int, '/' as int} ==> ShortMeaning(letter) == letter
  {
  }

  predicate ValidChar(c: Char) {
    match c
    case Plain(b) => b >= 0x20 && b != QUOTE && b != BACKSLASH
    case Short(letter) => IsShort(letter)
    case Unit(hex) => IsHex4(hex) && !(0xD800 <= Hex4Value(hex) <= 0xDFFF)
    case Pair(high, low) =>
      IsHex4(high) && IsHex4(low) && IsHighSurrogate(Hex4Value(high)) && IsLowSurrogate(Hex4Value(low))
  }

  function CharText(c: Char): (text: seq<Byte>) {
    match c
    case Plain(b) => [b]
    case Short(letter) => [BACKSLASH, letter]
    case Unit(hex) => [BACKSLASH, LETTER_U] + hex
    case Pair(high, low) => [BACKSLASH, LETTER_U] + (high + ([BACKSLASH, LETTER_U] + low))
  }

  // The bytes a character of a string stands for.
  function CharMeaning(c: Char): (meaning: seq<Byte>)
    requires ValidChar(c)
  {
    match c
    case Plain(b) => [b]
    case Short(letter) => [ShortMeaning(letter)]
    case Unit(hex) => Encode(Hex4Value(hex))
    case Pair(high, low) => Encode(PairScalar(Hex4Value(high), Hex4Value(low)))
  }

  predicate ValidChars(chars: seq<Char>) {
    forall i :: 0 <= i < |chars| ==> ValidChar(chars[i])
  }

  function CharsText(chars: seq<Char>): (text: seq<Byte>) {
    if chars == [] then [] else CharText(chars[0]) + CharsText(chars[1..])
  }

  function CharsMeaning(chars: seq<Char>): (meaning: seq<Byte>)
    requires ValidChars(chars)
  {
    if chars == [] then [] else CharMeaning(chars[0]) + CharsMeaning(chars[1..])
  }

  function StringText(chars: seq<Char>): (text: seq<Byte>) {
    [QUOTE] + CharsText(chars) + [QUOTE]
  }

  lemma ConsChars(c: Char, rest: seq<Char>)
    requires ValidChar(c) && ValidChars(rest)
    ensures ValidChars([c] + rest)
    ensures CharsText([c] + rest) == CharText(c) + CharsText(rest)
    ensures CharsMeaning([c] + rest) == CharMeaning(c) + CharsMeaning(rest)
  {
    assert ([c] + rest)[1..] == rest;
  }

  // ----- Numbers (section 6) ----------------------------------------------------------

  datatype Exponent = NoExponent | Exponent(letter: Byte, sign: seq<Byte>, digits: seq<Byte>)

  // An empty fraction stands for no fraction part.
  datatype Number = Number(minus: bool, whole: seq<Byte>, fraction: seq<Byte>, exponent: Exponent)

  predicate Digits(text: seq<Byte>) {
    forall i :: 0 <= i < |text| ==> IsDigit(text[i])
  }

  predicate ValidExponent(e: Exponent) {
    match e
    case NoExponent => true
    case Exponent(letter, sign, digits) =>
      && (letter == 0x65 || letter == 0x45)
      && (sign == [] || sign == [0x2B] || sign == [MINUS])
      && digits != [] && Digits(digits)
  }

  predicate ValidNumber(n: Number) {
    && Digits(n.whole) && (n.whole == [ZERO] || (n.whole != [] && n.whole[0] != ZERO))
    && Digits(n.fraction)
    && ValidExponent(n.exponent)
  }

  function FractionText(fraction: seq<Byte>): (text: seq<Byte>) {
    if fraction == [] then [] else [DOT] + fraction
  }

  function ExponentText(e: Exponent): (text: seq<Byte>) {
    match e
    case NoExponent => []
    case Exponent(letter, sign, digits) => [letter] + (sign + digits)
  }

  function NumberText(n: Number): (text: seq<Byte>) {
    (if n.minus then [MINUS] else []) + (n.whole + (FractionText(n.fraction) + ExponentText(n.exponent)))
  }

  // ----- Values, objects and arrays (sections 3, 4 and 5) -----------------------------

  const NULL: seq<Byte> := [0x6E, 0x75, 0x6C, 0x6C]
  const TRUE: seq<Byte> := [0x74, 0x72, 0x75, 0x65]
  const FALSE: seq<Byte> := [0x66, 0x61, 0x6C, 0x73, 0x65]

  lemma WordsAreSpelled(k: nat)
    ensures |NULL| == 4 && |TRUE| == 4 && |FALSE| == 5
    ensures k < 4 ==> NULL[k] == "null"[k] as int && TRUE[k] == "true"[k] as int
    ensures k < 5 ==> FALSE[k] == "false"[k] as int
  {
  }

  // The name of an object member, with the blanks on both sides of its colon.
  datatype Label = NoLabel | Label(name: seq<Char>, before: seq<Byte>, after: seq<Byte>)

  datatype Value =
    | Str(chars: seq<Char>)
    | Num(number: Number)
    | Word(text: seq<Byte>)
    | Empty(keyed: bool, blank: seq<Byte>)
    | Composite(keyed: bool, items: Items)

  // A comma-separated list: an element between its blanks, then the others.
  datatype Items = Last(item: Item) | More(item: Item, rest: Items)

  datatype Item = Item(lead: seq<Byte>, tag: Label, value: Value, trail: seq<Byte>)

  function Opener(keyed: bool): Byte {
    if keyed then 0x7B else 0x5B
  }

  function Closer(keyed: bool): Byte {
    if keyed then 0x7D else 0x5D
  }

  predicate ValidLabel(tag: Label, keyed: bool) {
    match tag
    case NoLabel => !keyed
    case Label(name, before, after) => keyed && ValidChars(name) && Blank(before) && Blank(after)
  }

  predicate ValidValue(v: Value) {
    match v
    case Str(chars) => ValidChars(chars)
    case Num(n) => ValidNumber(n)
    case Word(text) => text == NULL || text == TRUE || text == FALSE
    case Empty(_, blank) => Blank(blank)
    case Composite(keyed, items) => ValidItems(items, keyed)
  }

  predicate ValidItems(items: Items, keyed: bool) {
    ValidItem(items.item, keyed) && (items.More? ==> ValidItems(items.rest, keyed))
  }

  predicate ValidItem(item: Item, keyed: bool) {
    Blank(item.lead) && ValidLabel(item.tag, keyed) && ValidValue(item.value) && Blank(item.trail)
  }

  function LabelText(tag: Label): (text: seq<Byte>) {
    match tag
    case NoLabel => []
    case Label(name, before, after) => StringText(name) + (before + ([COLON] + after))
  }

  function Text(v: Value): (text: seq<Byte>) {
    match v
    case Str(chars) => StringText(chars)
    case Num(n) => NumberText(n)
    case Word(text) => text
    case Empty(keyed, blank) => [Opener(keyed)] + (blank + [Closer(keyed)])
    case Composite(keyed, items) => [Opener(keyed)] + (ItemsText(items) + [Closer(keyed)])
  }

  function ItemsText(items: Items): (text: seq<Byte>) {
    match items
    case Last(item) => ItemText(item)
    case More(item, rest) => ItemText(item) + ([COMMA] + ItemsText(rest))
  }

  function ItemText(item: Item): (text: seq<Byte>) {
    item.lead + (LabelText(item.tag) + (Text(item.value) + item.trail))
  }

  // How deeply values nest; a value that holds no other has depth 1.
  function Depth(v: Value): (depth: nat) {
    if v.Composite? then 1 + ItemsDepth(v.items) else 1
  }

  function ItemsDepth(items: Items): (depth: nat) {
    match items
    case Last(item) => Depth(item.value)
    case More(item, rest) => if Depth(item.value) > ItemsDepth(rest) then Depth(item.value) else ItemsDepth(rest)
  }

  // A whole JSON text: one value between blanks.
  ghost predicate JsonText(text: seq<Byte>, depth: nat) {
    exists lead, v, trail ::
      Blank(lead) && ValidValue(v) && Blank(trail) && Depth(v) <= depth && text == lead + Text(v) + trail
  }
}
