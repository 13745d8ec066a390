/**
 When the reader gives up for the depth of nesting: exactly on the texts that, read as far
 as they belong to the grammar, open one container more than it allows.
 */
module JsonDepth {
  import opened Wrappers
  import opened Utf8
  import opened JsonGrammar
  import opened JsonScanner
  import opened JsonParser
  import opened Envelope

  // The beginning of a value that is still open: it has come to a byte where a value must
  // begin, or it is inside a container.
  datatype Open = At(byte: Byte) | Inside(keyed: bool, list: OpenList)

  // The beginning of a list: items that are over, and one that is still open.
  datatype OpenList = Past(item: Item, rest: OpenList) | Here(lead: seq<Byte>, tag: Label, open: Open)

  function OpenText(open: Open): (text: seq<Byte>) {
    match open
    case At(byte) => [byte]
    case Inside(keyed, list) => [Opener(keyed)] + ListText(list)
  }

  function ListText(list: OpenList): (text: seq<Byte>) {
    match list
    case Past(item, rest) => (ItemText(item) + [COMMA]) + ListText(rest)
    case Here(lead, tag, open) => (lead + LabelText(tag)) + OpenText(open)
  }

  // The first byte in an array may be its closing bracket, with which no value begins.
  predicate ClosesAtOnce(keyed: bool, list: OpenList) {
    !keyed && list.Here? && list.open == At(Closer(false))
  }

  // As many containers as there is room for are open, and one more value begins; all that is
  // over is grammatical, and nests within the room.
  predicate Exceeds(open: Open, room: nat) {
    match open
    case At(byte) => room == 0 && !IsSpace(byte)
    case Inside(keyed, list) => room > 0 && ListExceeds(list, keyed, room - 1) && !ClosesAtOnce(keyed, list)
  }

  predicate ListExceeds(list: OpenList, keyed: bool, room: nat) {
    match list
    case Past(item, rest) => ValidItem(item, keyed) && Depth(item.value) <= room && ListExceeds(rest, keyed, room)
    case Here(lead, tag, open) => Blank(lead) && ValidLabel(tag, keyed) && Exceeds(open, room)
  }

  // ----- Soundness --------------------------------------------------------------------

  lemma {:induction false} ValueExceeds(s: seq<Byte>, i: nat, depth: nat) returns (open: Open, stop: nat)
    requires i <= |s| && depth <= MAX_DEPTH + 1 && ParseValue(s, i, depth) == TooDeep
    ensures Exceeds(open, MAX_DEPTH + 1 - depth) && Spans(s, SkipSpace(s, i), stop, OpenText(open))
    decreases |s| - i, 0
  {
    var j := SkipSpace(s, i);
    if depth > MAX_DEPTH {
      open, stop := At(s[j]), j + 1;
      SpansByte(s, j, stop, s[j]);
    } else {
      var keyed := s[j] == Opener(true);
      var list;
      list, stop := ItemsExceed(s, j + 1, depth, keyed);
      open := Inside(keyed, list);
      InsideJoin(s, j, stop, keyed, list);
      if ClosesAtOnce(keyed, list) {
        ClosedAtOnce(s, j + 1, stop, list);
      }
    }
  }

  lemma ClosedAtOnce(s: seq<Byte>, i: nat, stop: nat, list: OpenList)
    requires i <= |s| && ClosesAtOnce(false, list) && Blank(list.lead) && ValidLabel(list.tag, false)
    requires Spans(s, i, stop, ListText(list))
    ensures Eat(s, i, Closer(false)).Some?
  {
    assert ListText(list) == list.lead + [Closer(false)];
    EatComplete(s, i, stop, list.lead, Closer(false), Closer(false));
  }

  lemma {:induction false} ItemsExceed(s: seq<Byte>, i: nat, depth: nat, keyed: bool)
    returns (list: OpenList, stop: nat)
    requires i <= |s| && depth <= MAX_DEPTH && ParseItems(s, i, depth, keyed) == TooDeep
    ensures ListExceeds(list, keyed, MAX_DEPTH - depth) && Spans(s, i, stop, ListText(list))
    decreases |s| - i, 2
  {
    var here, item, comma := ItemsGoOn(s, i, depth, keyed);
    if here {
      list, stop := ItemExceeds(s, i, depth, keyed);
    } else {
      var rest;
      rest, stop := ItemsExceed(s, comma, depth, keyed);
      list := PastExceeds(s, i, comma, stop, item, rest, keyed, MAX_DEPTH - depth);
    }
  }

  // The value of an item is too deep.
  predicate ItemTooDeep(s: seq<Byte>, i: nat, depth: nat, keyed: bool)
    requires i <= |s|
  {
    TagEnd(s, i, keyed).Some? && ParseValue(s, TagEnd(s, i, keyed).value, depth + 1) == TooDeep
  }

  lemma {:induction false} ItemExceeds(s: seq<Byte>, i: nat, depth: nat, keyed: bool)
    returns (list: OpenList, stop: nat)
    requires i <= |s| && depth <= MAX_DEPTH && ItemTooDeep(s, i, depth, keyed)
    ensures ListExceeds(list, keyed, MAX_DEPTH - depth) && Spans(s, i, stop, ListText(list))
    decreases |s| - i, 1
  {
    var open;
    open, stop := ValueExceeds(s, TagEnd(s, i, keyed).value, depth + 1);
    list := HereExceeds(s, i, keyed, open, stop, MAX_DEPTH - depth);
  }

  // When an item is not too deep, it is over, and one behind its comma is.
  lemma ItemsGoOn(s: seq<Byte>, i: nat, depth: nat, keyed: bool) returns (here: bool, item: Item, comma: nat)
    requires i <= |s| && depth <= MAX_DEPTH && ParseItems(s, i, depth, keyed) == TooDeep
    ensures here ==> ItemTooDeep(s, i, depth, keyed)
    ensures !here ==> i < comma <= |s| && ParseItems(s, comma, depth, keyed) == TooDeep
    ensures !here ==> ValidItem(item, keyed) && Depth(item.value) <= MAX_DEPTH - depth
    ensures !here ==> Spans(s, i, comma, ItemText(item) + [COMMA])
  {
    here := ItemTooDeep(s, i, depth, keyed);
    if here {
      item, comma := Item([], NoLabel, Word(NULL), []), 0;
    } else {
      item, comma := PastSound(s, i, depth + 1, keyed);
    }
  }

  lemma PastJoin(s: seq<Byte>, i: nat, comma: nat, stop: nat, item: Item, rest: OpenList)
    requires Spans(s, i, comma, ItemText(item) + [COMMA]) && Spans(s, comma, stop, ListText(rest))
    ensures Spans(s, i, stop, ListText(Past(item, rest)))
  {
    SpansJoin(s, i, comma, stop, ItemText(item) + [COMMA], ListText(rest));
  }

  lemma PastExceeds(
    s: seq<Byte>, i: nat, comma: nat, stop: nat, item: Item, rest: OpenList, keyed: bool, room: nat)
    returns (list: OpenList)
    requires ValidItem(item, keyed) && Depth(item.value) <= room && Spans(s, i, comma, ItemText(item) + [COMMA])
    requires ListExceeds(rest, keyed, room) && Spans(s, comma, stop, ListText(rest))
    ensures ListExceeds(list, keyed, room) && Spans(s, i, stop, ListText(list))
  {
    list := Past(item, rest);
    PastJoin(s, i, comma, stop, item, rest);
  }

  lemma PastSplit(s: seq<Byte>, i: nat, stop: nat, item: Item, rest: OpenList) returns (comma: nat)
    requires Spans(s, i, stop, ListText(Past(item, rest)))
    ensures Spans(s, i, comma, ItemText(item) + [COMMA]) && Spans(s, comma, stop, ListText(rest))
  {
    comma := SpansSplit(s, i, stop, ItemText(item) + [COMMA], ListText(rest));
  }

  lemma InsideJoin(s: seq<Byte>, j: nat, stop: nat, keyed: bool, list: OpenList)
    requires j < |s| && s[j] == Opener(keyed) && Spans(s, j + 1, stop, ListText(list))
    ensures Spans(s, j, stop, OpenText(Inside(keyed, list)))
  {
    SpansByte(s, j, j + 1, Opener(keyed));
    SpansJoin(s, j, j + 1, stop, [Opener(keyed)], ListText(list));
  }

  lemma HereSound(s: seq<Byte>, i: nat, keyed: bool, open: Open, stop: nat) returns (list: OpenList)
    requires i <= |s| && TagEnd(s, i, keyed).Some?
    requires Spans(s, SkipSpace(s, TagEnd(s, i, keyed).value), stop, OpenText(open))
    ensures list.Here? && list.open == open && Blank(list.lead) && ValidLabel(list.tag, keyed)
    ensures Spans(s, i, stop, ListText(list)) && (keyed ==> CharsMeaning(list.tag.name) == NameAt(s, i))
  {
    var lead, tag := TagSound(s, i, keyed);
    list := Here(lead, tag, open);
    SpansJoin(s, i, SkipSpace(s, TagEnd(s, i, keyed).value), stop, lead + LabelText(tag), OpenText(open));
  }

  lemma HereExceeds(s: seq<Byte>, i: nat, keyed: bool, open: Open, stop: nat, room: nat) returns (list: OpenList)
    requires i <= |s| && TagEnd(s, i, keyed).Some? && Exceeds(open, room)
    requires Spans(s, SkipSpace(s, TagEnd(s, i, keyed).value), stop, OpenText(open))
    ensures ListExceeds(list, keyed, room) && Spans(s, i, stop, ListText(list))
  {
    list := HereSound(s, i, keyed, open, stop);
  }

  // An item that is over, and its comma.
  lemma PastSound(s: seq<Byte>, i: nat, depth: nat, keyed: bool) returns (item: Item, comma: nat)
    requires i <= |s| && TagEnd(s, i, keyed).Some? && depth <= MAX_DEPTH + 1
    requires var r := ParseValue(s, TagEnd(s, i, keyed).value, depth); r.Accept? && Eat(s, r.next, COMMA).Some?
    ensures comma == Eat(s, ParseValue(s, TagEnd(s, i, keyed).value, depth).next, COMMA).value
    ensures ValidItem(item, keyed) && depth + Depth(item.value) <= MAX_DEPTH + 1
    ensures Spans(s, i, comma, ItemText(item) + [COMMA])
  {
    var start := TagEnd(s, i, keyed).value;
    var next := ParseValue(s, start, depth).next;
    var lead, tag := TagSound(s, i, keyed);
    var v := ValueSound(s, start, depth);
    var trail := EatSound(s, next, COMMA);
    item, comma := Item(lead, tag, v, trail), Eat(s, next, COMMA).value;
    ItemJoin(s, i, SkipSpace(s, start), next, comma, item, COMMA);
  }

  // ----- Completeness -----------------------------------------------------------------

  lemma OpenStarts(s: seq<Byte>, j: nat, stop: nat, open: Open, room: nat)
    requires Exceeds(open, room) && Spans(s, j, stop, OpenText(open))
    ensures j < |s| && !IsSpace(s[j]) && s[j] == if open.At? then open.byte else Opener(open.keyed)
  {
    SpansInside(s, j, stop, OpenText(open));
  }

  lemma {:induction false} ExceedsValue(s: seq<Byte>, i: nat, j: nat, stop: nat, open: Open, depth: nat)
    requires i <= |s| && SkipSpace(s, i) == j && depth <= MAX_DEPTH + 1
    requires Exceeds(open, MAX_DEPTH + 1 - depth) && Spans(s, j, stop, OpenText(open))
    ensures ParseValue(s, i, depth) == TooDeep
    decreases open, 0
  {
    OpenStarts(s, j, stop, open, MAX_DEPTH + 1 - depth);
    if open.Inside? {
      InsideSplit(s, j, stop, open.keyed, open.list);
      ExceedsItems(s, j + 1, stop, open.list, depth, open.keyed);
      NotClosedYet(s, j + 1, stop, open.list, open.keyed, MAX_DEPTH - depth);
      InsideExceeds(s, i, j, depth, open.keyed);
    }
  }

  lemma InsideSplit(s: seq<Byte>, j: nat, stop: nat, keyed: bool, list: OpenList)
    requires Spans(s, j, stop, OpenText(Inside(keyed, list)))
    ensures j < |s| && s[j] == Opener(keyed) && Spans(s, j + 1, stop, ListText(list))
  {
    var start := SpansSplit(s, j, stop, [Opener(keyed)], ListText(list));
    SpansByte(s, j, start, Opener(keyed));
  }

  lemma InsideExceeds(s: seq<Byte>, i: nat, j: nat, depth: nat, keyed: bool)
    requires i <= |s| && SkipSpace(s, i) == j < |s| && s[j] == Opener(keyed) && depth <= MAX_DEPTH
    requires Eat(s, j + 1, Closer(keyed)) == None && ParseItems(s, j + 1, depth, keyed) == TooDeep
    ensures ParseValue(s, i, depth) == TooDeep
  {
  }

  lemma {:induction false} ExceedsItems(
    s: seq<Byte>, i: nat, stop: nat, list: OpenList, depth: nat, keyed: bool)
    requires depth <= MAX_DEPTH && ListExceeds(list, keyed, MAX_DEPTH - depth) && Spans(s, i, stop, ListText(list))
    ensures i <= |s| && ParseItems(s, i, depth, keyed) == TooDeep
    decreases list, 1
  {
    match list {
      case Past(item, rest) =>
        var comma := PastSplit(s, i, stop, item, rest);
        PastParses(s, i, comma, item, depth, keyed);
        ExceedsItems(s, comma, stop, rest, depth, keyed);
      case Here(lead, tag, open) =>
        var value := HereComplete(s, i, stop, list, keyed, MAX_DEPTH - depth);
        ExceedsValue(s, TagEnd(s, i, keyed).value, value, stop, open, depth + 1);
    }
  }

  lemma PastParses(s: seq<Byte>, i: nat, comma: nat, item: Item, depth: nat, keyed: bool)
    requires ValidItem(item, keyed) && depth + Depth(item.value) <= MAX_DEPTH
    requires Spans(s, i, comma, ItemText(item) + [COMMA])
    ensures i <= |s| && comma <= |s| && ParseItems(s, i, depth, keyed) == ParseItems(s, comma, depth, keyed)
  {
    var value, end := ItemComplete(s, i, comma, item, keyed, COMMA);
    ValueComplete(s, TagEnd(s, i, keyed).value, value, end, item.value, depth + 1);
    ItemsNext(s, i, end, comma, depth, keyed);
  }

  lemma ItemsNext(s: seq<Byte>, i: nat, end: nat, comma: nat, depth: nat, keyed: bool)
    requires i <= |s| && TagEnd(s, i, keyed).Some? && end <= |s|
    requires ParseValue(s, TagEnd(s, i, keyed).value, depth + 1) == Accept(end)
    requires Eat(s, end, Closer(keyed)) == None && Eat(s, end, COMMA) == Some(comma)
    ensures ParseItems(s, i, depth, keyed) == ParseItems(s, comma, depth, keyed)
  {
  }

  lemma HereComplete(s: seq<Byte>, i: nat, stop: nat, list: OpenList, keyed: bool, room: nat) returns (value: nat)
    requires list.Here? && ListExceeds(list, keyed, room) && Spans(s, i, stop, ListText(list))
    ensures i <= |s| && TagEnd(s, i, keyed).Some? && SkipSpace(s, TagEnd(s, i, keyed).value) == value < |s|
    ensures Spans(s, i, value, list.lead + LabelText(list.tag)) && Spans(s, value, stop, OpenText(list.open))
    ensures keyed ==> CharsMeaning(list.tag.name) == NameAt(s, i)
  {
    value := SpansSplit(s, i, stop, list.lead + LabelText(list.tag), OpenText(list.open));
    OpenStarts(s, value, stop, list.open, room);
    TagComplete(s, i, value, list.lead, list.tag, keyed);
  }

  lemma NotClosedYet(s: seq<Byte>, i: nat, stop: nat, list: OpenList, keyed: bool, room: nat)
    requires ListExceeds(list, keyed, room) && !ClosesAtOnce(keyed, list) && Spans(s, i, stop, ListText(list))
    ensures i <= |s| && Eat(s, i, Closer(keyed)) == None
  {
    match list {
      case Past(item, rest) =>
        var comma := PastSplit(s, i, stop, item, rest);
        var value, end := ItemComplete(s, i, comma, item, keyed, COMMA);
      case Here(lead, tag, open) =>
        var value := HereComplete(s, i, stop, list, keyed, room);
        OpenStarts(s, value, stop, open, room);
        if keyed {
          NameText(lead, tag);
          var a := SpansSplit(s, i, value, lead + [QUOTE],
                              (CharsText(tag.name) + [QUOTE]) + ((tag.before + [COLON]) + tag.after));
          EatComplete(s, i, a, lead, QUOTE, Closer(keyed));
        } else {
          assert lead + [] == lead;
          SpaceComplete(s, i, value, lead);
        }
    }
  }

  // From a place on, the text begins with an open value that exceeds the room.
  ghost predicate ExceedsFrom(s: seq<Byte>, j: nat, room: nat) {
    exists open: Open, stop: nat :: Exceeds(open, room) && Spans(s, j, stop, OpenText(open))
  }

  // A value is given up for its depth exactly when it exceeds the room that there is.
  lemma TooDeepExactly(s: seq<Byte>, i: nat, depth: nat)
    requires i <= |s| && depth <= MAX_DEPTH + 1
    ensures ParseValue(s, i, depth) == TooDeep <==> ExceedsFrom(s, SkipSpace(s, i), MAX_DEPTH + 1 - depth)
  {
    if ParseValue(s, i, depth) == TooDeep {
      var open, stop := ValueExceeds(s, i, depth);
    }
    if ExceedsFrom(s, SkipSpace(s, i), MAX_DEPTH + 1 - depth) {
      var open: Open, stop: nat :|
        Exceeds(open, MAX_DEPTH + 1 - depth) && Spans(s, SkipSpace(s, i), stop, OpenText(open));
      ExceedsValue(s, i, SkipSpace(s, i), stop, open, depth);
    }
  }

  // ----- Envelopes --------------------------------------------------------------------

  // The members of an open object: no selected name is repeated as far as they go.
  ghost predicate MembersExceed(list: OpenList, keys: seq<seq<Byte>>, fields: Fields) {
    match list
    case Past(item, rest) =>
      && ValidItem(item, true) && Depth(item.value) <= MAX_DEPTH && AddItem(item, keys, fields).Some?
      && MembersExceed(rest, keys, AddItem(item, keys, fields).value)
    case Here(lead, tag, open) =>
      && Blank(lead) && ValidLabel(tag, true) && Exceeds(open, MAX_DEPTH)
      && var index := Find(keys, CharsMeaning(tag.name)); (index.Some? ==> index.value !in fields)
  }

  // An envelope whose members nest too deep, before anything else is wrong with it.
  ghost predicate NestsTooDeep(s: seq<Byte>, keys: seq<seq<Byte>>) {
    exists lead, list ::
      Blank(lead) && MembersExceed(list, keys, map[]) && (lead + [Opener(true)]) + ListText(list) <= s
  }

  lemma {:induction false} LimitSound(s: seq<Byte>, i: nat, fields: Fields, keys: seq<seq<Byte>>)
    returns (list: OpenList, stop: nat)
    requires i <= |s| && ScanMembers(s, i, fields, keys) == Limit
    ensures MembersExceed(list, keys, fields) && Spans(s, i, stop, ListText(list))
    decreases |s| - i
  {
    var r := ScanMember(s, i, fields, keys);
    if r == Limit {
      var open;
      open, stop := ValueExceeds(s, TagEnd(s, i, true).value, 1);
      list := HereSound(s, i, true, open, stop);
    } else {
      var comma := Eat(s, r.next, COMMA).value;
      var rest;
      rest, stop := LimitSound(s, comma, r.fields, keys);
      var item := MemberPast(s, i, fields, keys);
      list := Past(item, rest);
      PastJoin(s, i, comma, stop, item, rest);
    }
  }

  // A member that is over, and its comma.
  lemma MemberPast(s: seq<Byte>, i: nat, fields: Fields, keys: seq<seq<Byte>>) returns (item: Item)
    requires i <= |s| && ScanMember(s, i, fields, keys).Done?
    requires Eat(s, ScanMember(s, i, fields, keys).next, COMMA).Some?
    ensures ValidItem(item, true) && Depth(item.value) <= MAX_DEPTH
    ensures AddItem(item, keys, fields) == Some(ScanMember(s, i, fields, keys).fields)
    ensures Spans(s, i, Eat(s, ScanMember(s, i, fields, keys).next, COMMA).value, ItemText(item) + [COMMA])
  {
    var next := ScanMember(s, i, fields, keys).next;
    var lead, tag, v := MemberSound(s, i, fields, keys);
    var trail := EatSound(s, next, COMMA);
    item := Item(lead, tag, v, trail);
    ItemJoin(s, i, SkipSpace(s, TagEnd(s, i, true).value), next, Eat(s, next, COMMA).value, item, COMMA);
  }

  lemma {:induction false} LimitComplete(
    s: seq<Byte>, i: nat, stop: nat, list: OpenList, fields: Fields, keys: seq<seq<Byte>>)
    requires MembersExceed(list, keys, fields) && Spans(s, i, stop, ListText(list))
    ensures i <= |s| && ScanMembers(s, i, fields, keys) == Limit && Eat(s, i, Closer(true)) == None
    decreases list
  {
    match list {
      case Past(item, rest) =>
        var more := AddItem(item, keys, fields).value;
        var comma := PastSplit(s, i, stop, item, rest);
        var end := MemberComplete(s, i, comma, item, COMMA, fields, more, keys);
        LimitComplete(s, comma, stop, rest, more, keys);
      case Here(lead, tag, open) =>
        var value := HereComplete(s, i, stop, list, true, MAX_DEPTH);
        ExceedsValue(s, TagEnd(s, i, true).value, value, stop, open, 1);
        NotClosedYet(s, i, stop, list, true, MAX_DEPTH);
    }
  }

  lemma BeginningSpans(s: seq<Byte>, head: seq<Byte>, stop: nat)
    ensures Spans(s, 0, stop, head) <==> head <= s && stop == |head|
  {
    SpansSlice(s, 0, stop, head);
    if head <= s {
      assert s[0..|head|] == head;
    }
  }

  lemma LimitIsTooDeep(s: seq<Byte>, keys: seq<seq<Byte>>)
    requires ScanEnvelope(s, keys) == Limit
    ensures NestsTooDeep(s, keys)
  {
    var start := Eat(s, 0, Opener(true)).value;
    var lead := EatSound(s, 0, Opener(true));
    var list, stop := LimitSound(s, start, map[], keys);
    SpansJoin(s, 0, start, stop, lead + [Opener(true)], ListText(list));
    BeginningSpans(s, (lead + [Opener(true)]) + ListText(list), stop);
  }

  lemma TooDeepIsLimit(s: seq<Byte>, keys: seq<seq<Byte>>, lead: seq<Byte>, list: OpenList)
    requires Blank(lead) && MembersExceed(list, keys, map[]) && (lead + [Opener(true)]) + ListText(list) <= s
    ensures ScanEnvelope(s, keys) == Limit
  {
    var head := (lead + [Opener(true)]) + ListText(list);
    BeginningSpans(s, head, |head|);
    var start := SpansSplit(s, 0, |head|, lead + [Opener(true)], ListText(list));
    EatComplete(s, 0, start, lead, Opener(true), Opener(true));
    LimitComplete(s, start, |head|, list, map[], keys);
    MembersLimit(s, keys, start);
  }

  lemma MembersLimit(s: seq<Byte>, keys: seq<seq<Byte>>, start: nat)
    requires Eat(s, 0, Opener(true)) == Some(start) && Eat(s, start, Closer(true)) == None
    requires ScanMembers(s, start, map[], keys) == Limit
    ensures ScanEnvelope(s, keys) == Limit
  {
  }

  // The scan of an envelope gives up for its depth exactly then.
  lemma LimitExactly(s: seq<Byte>, keys: seq<seq<Byte>>)
    ensures ScanEnvelope(s, keys) == Limit <==> NestsTooDeep(s, keys)
  {
    if ScanEnvelope(s, keys) == Limit {
      LimitIsTooDeep(s, keys);
    }
    if NestsTooDeep(s, keys) {
      var lead, list :| Blank(lead) && MembersExceed(list, keys, map[]) &&
                        (lead + [Opener(true)]) + ListText(list) <= s;
      TooDeepIsLimit(s, keys, lead, list);
    }
  }
}
