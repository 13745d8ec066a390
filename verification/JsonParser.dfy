/**
 The recursive part of the JSON reader, which accepts exactly the JSON texts whose
 values nest no deeper than its limit.
 */
module JsonParser {
  import opened Wrappers
  import opened Utf8
  import opened JsonGrammar
  import opened JsonScanner

  const MAX_DEPTH := 16

  datatype Outcome = Accept(next: nat) | Reject | TooDeep

  predicate StartsWith(s: seq<Byte>, i: nat, word: seq<Byte>) {
    i + |word| <= |s| && s[i..i + |word|] == word
  }

  // A word or a number.
  function ScalarEnd(s: seq<Byte>, i: nat): (r: Outcome)
    requires i < |s|
    ensures r.Accept? ==> i < r.next <= |s|
  {
    if StartsWith(s, i, NULL) then Accept(i + |NULL|)
    else if StartsWith(s, i, TRUE) then Accept(i + |TRUE|)
    else if StartsWith(s, i, FALSE) then Accept(i + |FALSE|)
    else match NumberEnd(s, i)
      case None => Reject
      case Some(next) => Accept(next)
  }

  // The name of an object member and its colon; nothing in an array.
  function TagEnd(s: seq<Byte>, i: nat, keyed: bool): (next: Option<nat>)
    requires i <= |s|
    ensures next.Some? ==> i <= next.value <= |s|
  {
    if !keyed then Some(i)
    else match Eat(s, i, QUOTE)
      case None => None
      case Some(start) =>
        match StringRest(s, start)
        case None => None
        case Some(name) => Eat(s, name.next, COLON)
  }

  // The decoded name of an object member.
  function NameAt(s: seq<Byte>, i: nat): (name: seq<Byte>)
    requires i <= |s| && TagEnd(s, i, true).Some?
  {
    StringRest(s, Eat(s, i, QUOTE).value).value.meaning
  }

  // value: one value, which itself nests at the given depth.
  function ParseValue(s: seq<Byte>, i: nat, depth: nat): (r: Outcome)
    requires i <= |s|
    ensures r.Accept? ==> i < r.next <= |s|
    decreases |s| - i, 0
  {
    var j := SkipSpace(s, i);
    if j == |s| then Reject
    else if depth > MAX_DEPTH then TooDeep
    else if s[j] == QUOTE then
      match StringRest(s, j + 1)
      case None => Reject
      case Some(d) => Accept(d.next)
    else if s[j] == Opener(true) || s[j] == Opener(false) then
      match Eat(s, j + 1, Closer(s[j] == Opener(true)))
      case Some(next) => Accept(next)
      case None => ParseItems(s, j + 1, depth, s[j] == Opener(true))
    else ScalarEnd(s, j)
  }

  // The elements or members of a container at the given depth, and its closing bracket.
  function ParseItems(s: seq<Byte>, i: nat, depth: nat, keyed: bool): (r: Outcome)
    requires i <= |s|
    ensures r.Accept? ==> i < r.next <= |s|
    decreases |s| - i, 1
  {
    match TagEnd(s, i, keyed)
    case None => Reject
    case Some(start) =>
      var r := ParseValue(s, start, depth + 1);
      if !r.Accept? then r
      else match Eat(s, r.next, Closer(keyed))
        case Some(next) => Accept(next)
        case None =>
          match Eat(s, r.next, COMMA)
          case None => Reject
          case Some(next) => ParseItems(s, next, depth, keyed)
  }

  // ----- Names ------------------------------------------------------------------------

  lemma TagSound(s: seq<Byte>, i: nat, keyed: bool) returns (lead: seq<Byte>, tag: Label)
    requires i <= |s| && TagEnd(s, i, keyed).Some?
    ensures Blank(lead) && ValidLabel(tag, keyed)
    ensures Spans(s, i, SkipSpace(s, TagEnd(s, i, keyed).value), lead + LabelText(tag))
    ensures keyed ==> CharsMeaning(tag.name) == NameAt(s, i)
  {
    if !keyed {
      lead := SpaceSound(s, i);
      tag := NoLabel;
      assert lead + [] == lead;
    } else {
      var start := Eat(s, i, QUOTE).value;
      var stop := StringRest(s, start).value.next;
      var colon := Eat(s, stop, COLON).value;
      lead := EatSound(s, i, QUOTE);
      var name := StringSound(s, start);
      var before := EatSound(s, stop, COLON);
      var after := SpaceSound(s, colon);
      tag := Label(name, before, after);
      NameJoin(s, i, start, stop, colon, SkipSpace(s, colon), lead, tag);
    }
  }

  lemma NameText(lead: seq<Byte>, tag: Label)
    requires tag.Label?
    ensures lead + LabelText(tag) ==
            (lead + [QUOTE]) + ((CharsText(tag.name) + [QUOTE]) + ((tag.before + [COLON]) + tag.after))
  {
  }

  lemma NameJoin(
    s: seq<Byte>, i: nat, start: nat, stop: nat, colon: nat, value: nat, lead: seq<Byte>, tag: Label)
    requires tag.Label?
    requires Spans(s, i, start, lead + [QUOTE]) && Spans(s, start, stop, CharsText(tag.name) + [QUOTE])
    requires Spans(s, stop, colon, tag.before + [COLON]) && Spans(s, colon, value, tag.after)
    ensures Spans(s, i, value, lead + LabelText(tag))
  {
    NameText(lead, tag);
    SpansJoin(s, stop, colon, value, tag.before + [COLON], tag.after);
    SpansJoin(s, start, stop, value, CharsText(tag.name) + [QUOTE], (tag.before + [COLON]) + tag.after);
    SpansJoin(s, i, start, value, lead + [QUOTE],
              (CharsText(tag.name) + [QUOTE]) + ((tag.before + [COLON]) + tag.after));
  }

  // After an item's name, or at its start in an array, the value begins.
  lemma TagComplete(s: seq<Byte>, i: nat, value: nat, lead: seq<Byte>, tag: Label, keyed: bool)
    requires Blank(lead) && ValidLabel(tag, keyed) && Spans(s, i, value, lead + LabelText(tag))
    requires value < |s| ==> !IsSpace(s[value])
    ensures i <= |s| && TagEnd(s, i, keyed).Some?
    ensures SkipSpace(s, TagEnd(s, i, keyed).value) == value
    ensures keyed ==> CharsMeaning(tag.name) == NameAt(s, i)
  {
    if !keyed {
      assert lead + [] == lead;
      SpaceComplete(s, i, value, lead);
    } else {
      var chars, colon := CharsText(tag.name) + [QUOTE], tag.before + [COLON];
      NameText(lead, tag);
      var a := SpansSplit(s, i, value, lead + [QUOTE], chars + (colon + tag.after));
      var b := SpansSplit(s, a, value, chars, colon + tag.after);
      var c := SpansSplit(s, b, value, colon, tag.after);
      EatComplete(s, i, a, lead, QUOTE, QUOTE);
      StringComplete(s, a, b, tag.name);
      EatComplete(s, b, c, tag.before, COLON, COLON);
      SpaceComplete(s, c, value, tag.after);
    }
  }

  // ----- Soundness --------------------------------------------------------------------

  lemma ScalarSound(s: seq<Byte>, i: nat) returns (v: Value)
    requires i < |s| && ScalarEnd(s, i).Accept?
    ensures ValidValue(v) && Depth(v) == 1 && Spans(s, i, ScalarEnd(s, i).next, Text(v))
  {
    if StartsWith(s, i, NULL) {
      v := Word(NULL);
      SpansSlice(s, i, i + |NULL|, NULL);
    } else if StartsWith(s, i, TRUE) {
      v := Word(TRUE);
      SpansSlice(s, i, i + |TRUE|, TRUE);
    } else if StartsWith(s, i, FALSE) {
      v := Word(FALSE);
      SpansSlice(s, i, i + |FALSE|, FALSE);
    } else {
      var n := NumberSound(s, i);
      v := Num(n);
    }
  }

  // Whatever is accepted as a value spells a valid tree within the depth limit.
  lemma {:induction false} ValueSound(s: seq<Byte>, i: nat, depth: nat) returns (v: Value)
    requires i <= |s| && ParseValue(s, i, depth).Accept?
    ensures ValidValue(v) && depth + Depth(v) <= MAX_DEPTH + 1
    ensures Spans(s, SkipSpace(s, i), ParseValue(s, i, depth).next, Text(v))
    decreases |s| - i, 0
  {
    var j, next := SkipSpace(s, i), ParseValue(s, i, depth).next;
    if s[j] == QUOTE {
      v := QuotedSound(s, j);
    } else if s[j] == Opener(true) || s[j] == Opener(false) {
      var keyed := s[j] == Opener(true);
      SpansByte(s, j, j + 1, Opener(keyed));
      if Eat(s, j + 1, Closer(keyed)).Some? {
        var blank := EatSound(s, j + 1, Closer(keyed));
        v := Empty(keyed, blank);
        SpansJoin(s, j, j + 1, next, [Opener(keyed)], blank + [Closer(keyed)]);
      } else {
        var items := ItemsSound(s, j + 1, depth, keyed);
        v := Composite(keyed, items);
        SpansJoin(s, j, j + 1, next, [Opener(keyed)], ItemsText(items) + [Closer(keyed)]);
      }
    } else {
      v := ScalarSound(s, j);
    }
  }

  lemma QuotedSound(s: seq<Byte>, j: nat) returns (v: Value)
    requires j < |s| && s[j] == QUOTE && StringRest(s, j + 1).Some?
    ensures ValidValue(v) && v.Str? && Spans(s, j, StringRest(s, j + 1).value.next, Text(v))
  {
    var chars := StringSound(s, j + 1);
    v := Str(chars);
    SpansByte(s, j, j + 1, QUOTE);
    SpansJoin(s, j, j + 1, StringRest(s, j + 1).value.next, [QUOTE], CharsText(chars) + [QUOTE]);
    assert StringText(chars) == [QUOTE] + (CharsText(chars) + [QUOTE]);
  }

  lemma {:induction false} ItemsSound(s: seq<Byte>, i: nat, depth: nat, keyed: bool) returns (items: Items)
    requires i <= |s| && ParseItems(s, i, depth, keyed).Accept?
    ensures ValidItems(items, keyed) && depth + ItemsDepth(items) <= MAX_DEPTH
    ensures Spans(s, i, ParseItems(s, i, depth, keyed).next, ItemsText(items) + [Closer(keyed)])
    decreases |s| - i, 1
  {
    var start := TagEnd(s, i, keyed).value;
    var value, next := SkipSpace(s, start), ParseValue(s, start, depth + 1).next;
    var lead, tag := TagSound(s, i, keyed);
    var v := ValueSound(s, start, depth + 1);
    if Eat(s, next, Closer(keyed)).Some? {
      var trail := EatSound(s, next, Closer(keyed));
      items := Last(Item(lead, tag, v, trail));
      ItemJoin(s, i, value, next, Eat(s, next, Closer(keyed)).value, items.item, Closer(keyed));
    } else {
      var comma := Eat(s, next, COMMA).value;
      var trail := EatSound(s, next, COMMA);
      var rest := ItemsSound(s, comma, depth, keyed);
      items := More(Item(lead, tag, v, trail), rest);
      ItemJoin(s, i, value, next, comma, items.item, COMMA);
      SpansJoin(s, i, comma, ParseItems(s, comma, depth, keyed).next, ItemText(items.item) + [COMMA],
                ItemsText(rest) + [Closer(keyed)]);
      MoreText(items.item, rest, keyed);
    }
  }

  lemma MoreText(item: Item, rest: Items, keyed: bool)
    ensures ItemsText(More(item, rest)) + [Closer(keyed)] ==
            (ItemText(item) + [COMMA]) + (ItemsText(rest) + [Closer(keyed)])
  {
  }

  lemma ItemParts(item: Item, b: Byte)
    ensures ItemText(item) + [b] ==
            (item.lead + LabelText(item.tag)) + (Text(item.value) + (item.trail + [b]))
  {
  }

  lemma ItemJoin(s: seq<Byte>, i: nat, value: nat, next: nat, stop: nat, item: Item, b: Byte)
    requires Spans(s, i, value, item.lead + LabelText(item.tag)) && Spans(s, value, next, Text(item.value))
    requires Spans(s, next, stop, item.trail + [b])
    ensures Spans(s, i, stop, ItemText(item) + [b])
  {
    ItemParts(item, b);
    SpansJoin(s, value, next, stop, Text(item.value), item.trail + [b]);
    SpansJoin(s, i, value, stop, item.lead + LabelText(item.tag), Text(item.value) + (item.trail + [b]));
  }

  // ----- Completeness -----------------------------------------------------------------

  // How a value starts: never with a blank, a comma or a closing bracket.
  lemma ValueStarts(s: seq<Byte>, i: nat, j: nat, v: Value)
    requires ValidValue(v) && Spans(s, i, j, Text(v))
    requires Ends(s, j)
    ensures i < |s| && !Ends(s, i)
    ensures v.Str? <==> s[i] == QUOTE
    ensures v.Empty? || v.Composite? <==> s[i] == Opener(true) || s[i] == Opener(false)
    ensures v.Empty? || v.Composite? ==> s[i] == Opener(v.keyed)
  {
    if v.Num? {
      NumberComplete(s, i, j, v.number);
    } else {
      SpansInside(s, i, j, Text(v));
    }
  }

  lemma ScalarComplete(s: seq<Byte>, i: nat, j: nat, v: Value)
    requires ValidValue(v) && (v.Word? || v.Num?) && Spans(s, i, j, Text(v)) && Ends(s, j)
    ensures i < |s| && ScalarEnd(s, i) == Accept(j)
  {
    ValueStarts(s, i, j, v);
    SpansInside(s, i, j, Text(v));
    SpansSlice(s, i, j, Text(v));
    WordStarts(s, i, NULL);
    WordStarts(s, i, TRUE);
    WordStarts(s, i, FALSE);
    if v.Num? {
      NumberComplete(s, i, j, v.number);
    }
  }

  lemma WordStarts(s: seq<Byte>, i: nat, word: seq<Byte>)
    requires i < |s| && word != []
    ensures StartsWith(s, i, word) ==> s[i] == word[0]
  {
    assert StartsWith(s, i, word) ==> s[i..i + |word|][0] == s[i];
  }

  lemma TextComplete(s: seq<Byte>, j: nat, next: nat, v: Value)
    requires v.Str? && ValidValue(v) && Spans(s, j, next, Text(v)) && j < |s|
    ensures StringRest(s, j + 1).Some? && StringRest(s, j + 1).value.next == next
  {
    var body := CharsText(v.chars) + [QUOTE];
    assert StringText(v.chars) == [QUOTE] + body;
    var start := SpansSplit(s, j, next, [QUOTE], body);
    SpansByte(s, j, start, QUOTE);
    StringComplete(s, start, next, v.chars);
  }

  lemma EmptyComplete(s: seq<Byte>, j: nat, next: nat, v: Value)
    requires v.Empty? && ValidValue(v) && Spans(s, j, next, Text(v)) && j < |s|
    ensures Eat(s, j + 1, Closer(v.keyed)) == Some(next)
  {
    var start := SpansSplit(s, j, next, [Opener(v.keyed)], v.blank + [Closer(v.keyed)]);
    SpansByte(s, j, start, Opener(v.keyed));
    EatComplete(s, start, next, v.blank, Closer(v.keyed), Closer(v.keyed));
  }

  // Every valid tree within the depth limit is accepted wherever it is spelled and
  // properly followed.
  lemma {:induction false} ValueComplete(s: seq<Byte>, i: nat, j: nat, next: nat, v: Value, depth: nat)
    requires i <= |s| && SkipSpace(s, i) == j
    requires ValidValue(v) && depth + Depth(v) <= MAX_DEPTH + 1 && Spans(s, j, next, Text(v)) && Ends(s, next)
    ensures ParseValue(s, i, depth) == Accept(next)
    decreases v, 0
  {
    ValueStarts(s, j, next, v);
    match v {
      case Str(_) => TextComplete(s, j, next, v);
      case Empty(_, _) => EmptyComplete(s, j, next, v);
      case Composite(keyed, items) =>
        var start := SpansSplit(s, j, next, [Opener(keyed)], ItemsText(items) + [Closer(keyed)]);
        SpansByte(s, j, start, Opener(keyed));
        ItemsComplete(s, start, next, items, depth, keyed);
      case Num(_) => ScalarComplete(s, j, next, v);
      case Word(_) => ScalarComplete(s, j, next, v);
    }
  }

  // A list is read to its closing bracket, which is not the first thing in it.
  lemma {:induction false} ItemsComplete(s: seq<Byte>, i: nat, next: nat, items: Items, depth: nat, keyed: bool)
    requires ValidItems(items, keyed) && depth + ItemsDepth(items) <= MAX_DEPTH
    requires Spans(s, i, next, ItemsText(items) + [Closer(keyed)])
    ensures i <= |s| && ParseItems(s, i, depth, keyed) == Accept(next)
    ensures Eat(s, i, Closer(keyed)) == None
    decreases items, 1
  {
    if items.Last? {
      var value, stop := ItemComplete(s, i, next, items.item, keyed, Closer(keyed));
      ValueComplete(s, TagEnd(s, i, keyed).value, value, stop, items.item.value, depth + 1);
    } else {
      MoreText(items.item, items.rest, keyed);
      var comma := SpansSplit(s, i, next, ItemText(items.item) + [COMMA], ItemsText(items.rest) + [Closer(keyed)]);
      var value, stop := ItemComplete(s, i, comma, items.item, keyed, COMMA);
      ValueComplete(s, TagEnd(s, i, keyed).value, value, stop, items.item.value, depth + 1);
      ItemsComplete(s, comma, next, items.rest, depth, keyed);
    }
  }

  // An item and the comma or bracket after it: where its value starts and stops.
  lemma ItemComplete(s: seq<Byte>, i: nat, next: nat, item: Item, keyed: bool, b: Byte)
    returns (value: nat, stop: nat)
    requires ValidItem(item, keyed) && (b == COMMA || b == Closer(keyed))
    requires Spans(s, i, next, ItemText(item) + [b])
    ensures i <= |s| && TagEnd(s, i, keyed).Some? && SkipSpace(s, TagEnd(s, i, keyed).value) == value
    ensures keyed ==> CharsMeaning(item.tag.name) == NameAt(s, i)
    ensures value <= stop <= |s| && Spans(s, value, stop, Text(item.value)) && Ends(s, stop)
    ensures Eat(s, stop, b) == Some(next) && (b == COMMA ==> Eat(s, stop, Closer(keyed)) == None)
    ensures Eat(s, i, Closer(keyed)) == None
  {
    var head, text, tail := item.lead + LabelText(item.tag), Text(item.value), item.trail + [b];
    ItemParts(item, b);
    value := SpansSplit(s, i, next, head, text + tail);
    stop := SpansSplit(s, value, next, text, tail);
    EatComplete(s, stop, next, item.trail, b, b);
    EatComplete(s, stop, next, item.trail, b, Closer(keyed));
    TailEnds(s, stop, next, item.trail, b);
    ValueStarts(s, value, stop, item.value);
    TagComplete(s, i, value, item.lead, item.tag, keyed);
    NotClosed(s, i, value, item.lead, item.tag, keyed);
  }

  lemma TailEnds(s: seq<Byte>, i: nat, j: nat, blank: seq<Byte>, b: Byte)
    requires Blank(blank) && Spans(s, i, j, blank + [b])
    requires b == COMMA || b == Closer(true) || b == Closer(false)
    ensures Ends(s, i)
  {
    SpansInside(s, i, j, blank + [b]);
    assert (blank + [b])[0] == (if blank == [] then b else blank[0]);
  }

  lemma NotClosed(s: seq<Byte>, i: nat, value: nat, lead: seq<Byte>, tag: Label, keyed: bool)
    requires Blank(lead) && ValidLabel(tag, keyed) && Spans(s, i, value, lead + LabelText(tag))
    requires value < |s| && !Ends(s, value)
    ensures i <= |s| && Eat(s, i, Closer(keyed)) == None
  {
    if !keyed {
      assert lead + [] == lead;
      SpaceComplete(s, i, value, lead);
    } else {
      NameText(lead, tag);
      var a := SpansSplit(s, i, value, lead + [QUOTE],
                          (CharsText(tag.name) + [QUOTE]) + ((tag.before + [COLON]) + tag.after));
      EatComplete(s, i, a, lead, QUOTE, Closer(keyed));
    }
  }

  // ----- The whole text ---------------------------------------------------------------

  // A value and trailing blanks reach the end of the text.
  predicate Accepts(s: seq<Byte>) {
    var r := ParseValue(s, 0, 1);
    r.Accept? && SkipSpace(s, r.next) == |s|
  }

  // The reader accepts exactly the JSON texts of limited depth.
  lemma AcceptsExactlyJson(s: seq<Byte>)
    ensures Accepts(s) <==> JsonText(s, MAX_DEPTH)
  {
    if Accepts(s) {
      var next := ParseValue(s, 0, 1).next;
      var lead := SpaceSound(s, 0);
      var v := ValueSound(s, 0, 1);
      var trail := SpaceSound(s, next);
      SpansJoin(s, 0, SkipSpace(s, 0), next, lead, Text(v));
      SpansJoin(s, 0, next, |s|, lead + Text(v), trail);
      SpansSlice(s, 0, |s|, lead + Text(v) + trail);
      assert s == lead + Text(v) + trail;
    }
    if JsonText(s, MAX_DEPTH) {
      var lead, v, trail :| Blank(lead) && ValidValue(v) && Blank(trail) && Depth(v) <= MAX_DEPTH &&
                            s == lead + Text(v) + trail;
      TextAccepted(s, lead, v, trail);
    }
  }

  lemma TextAccepted(s: seq<Byte>, lead: seq<Byte>, v: Value, trail: seq<Byte>)
    requires Blank(lead) && ValidValue(v) && Blank(trail) && Depth(v) <= MAX_DEPTH && s == lead + Text(v) + trail
    ensures Accepts(s)
  {
    SpansSlice(s, 0, |s|, lead + Text(v) + trail);
    var next := SpansSplit(s, 0, |s|, lead + Text(v), trail);
    var j := SpansSplit(s, 0, next, lead, Text(v));
    SpansInside(s, next, |s|, trail);
    ValueStarts(s, j, next, v);
    SpaceComplete(s, 0, j, lead);
    SpaceComplete(s, next, |s|, trail);
    ValueComplete(s, 0, j, next, v, 1);
  }
}
