/**
 What the decoder finds in an envelope: the members of one JSON object, from which it
 picks the values of eight selected names.
 */
module Envelope {
  import opened Wrappers
  import opened Utf8
  import opened JsonGrammar
  import opened JsonScanner
  import opened JsonParser

  type Fields = map<nat, seq<Byte>>

  datatype Scan = Done(fields: Fields, next: nat) | Invalid | Limit

  function Find(keys: seq<seq<Byte>>, name: seq<Byte>): (index: Option<nat>)
    ensures index.Some? ==> index.value < |keys| && keys[index.value] == name
    ensures index.None? ==> name !in keys
  {
    FindFrom(keys, name, 0)
  }

  function FindFrom(keys: seq<seq<Byte>>, name: seq<Byte>, k: nat): (index: Option<nat>)
    requires k <= |keys| && name !in keys[..k]
    ensures index.Some? ==> index.value < |keys| && keys[index.value] == name
    ensures index.None? ==> name !in keys
    decreases |keys| - k
  {
    if k == |keys| then
      assert keys[..k] == keys;
      None
    else if keys[k] == name then Some(k)
    else
      assert keys[..k + 1] == keys[..k] + [keys[k]];
      FindFrom(keys, name, k + 1)
  }

  // The bytes a selected value contributes: what a string stands for, the spelling of
  // anything else.
  function ValueBytes(s: seq<Byte>, start: nat, next: nat): (bytes: seq<Byte>)
    requires start < next <= |s|
    requires s[start] == QUOTE ==> StringRest(s, start + 1).Some?
  {
    if s[start] == QUOTE then StringRest(s, start + 1).value.meaning else s[start..next]
  }

  // One member, whose selected name may occur only once.
  function ScanMember(s: seq<Byte>, i: nat, fields: Fields, keys: seq<seq<Byte>>): (r: Scan)
    requires i <= |s|
    ensures r.Done? ==> i < r.next <= |s|
  {
    match TagEnd(s, i, true)
    case None => Invalid
    case Some(colon) =>
      var index := Find(keys, NameAt(s, i));
      if index.Some? && index.value in fields then Invalid
      else match ParseValue(s, colon, 1)
        case Reject => Invalid
        case TooDeep => Limit
        case Accept(next) =>
          Done(if index == None then fields
               else fields[index.value := ValueBytes(s, SkipSpace(s, colon), next)], next)
  }

  function ScanMembers(s: seq<Byte>, i: nat, fields: Fields, keys: seq<seq<Byte>>): (r: Scan)
    requires i <= |s|
    ensures r.Done? ==> i < r.next <= |s|
    decreases |s| - i
  {
    match ScanMember(s, i, fields, keys)
    case Invalid => Invalid
    case Limit => Limit
    case Done(more, stop) =>
      match Eat(s, stop, Closer(true))
      case Some(next) => Done(more, next)
      case None =>
        match Eat(s, stop, COMMA)
        case None => Invalid
        case Some(next) => ScanMembers(s, next, more, keys)
  }

  // An object, from after its opening brace.
  function ScanObject(s: seq<Byte>, i: nat, keys: seq<seq<Byte>>): (r: Scan)
    requires i <= |s|
    ensures r.Done? ==> r.next <= |s|
  {
    if Eat(s, i, Closer(true)).Some? then Done(map[], Eat(s, i, Closer(true)).value)
    else ScanMembers(s, i, map[], keys)
  }

  // The whole envelope: one object between blanks.
  function ScanEnvelope(s: seq<Byte>, keys: seq<seq<Byte>>): (r: Scan)
    ensures r.Done? ==> r.next == |s|
  {
    match Eat(s, 0, Opener(true))
    case None => Invalid
    case Some(start) =>
      var r := ScanObject(s, start, keys);
      if r.Done? then
        if SkipSpace(s, r.next) == |s| then Done(r.fields, |s|) else Invalid
      else r
  }

  // ----- The same over syntax trees ---------------------------------------------------

  function ValueOf(v: Value): (bytes: seq<Byte>)
    requires ValidValue(v)
  {
    if v.Str? then CharsMeaning(v.chars) else Text(v)
  }

  function AddItem(item: Item, keys: seq<seq<Byte>>, fields: Fields): (more: Option<Fields>)
    requires ValidItem(item, true)
  {
    match Find(keys, CharsMeaning(item.tag.name))
    case None => Some(fields)
    case Some(index) => if index in fields then None else Some(fields[index := ValueOf(item.value)])
  }

  // The selected values of an object's members; none when a selected name is repeated.
  function FieldsOf(items: Items, keys: seq<seq<Byte>>, fields: Fields): (more: Option<Fields>)
    requires ValidItems(items, true)
  {
    match AddItem(items.item, keys, fields)
    case None => None
    case Some(more) => if items.Last? then Some(more) else FieldsOf(items.rest, keys, more)
  }

  function ObjectFields(v: Value, keys: seq<seq<Byte>>): (fields: Option<Fields>)
    requires ValidValue(v)
  {
    match v
    case Empty(true, _) => Some(map[])
    case Composite(true, items) => FieldsOf(items, keys, map[])
    case _ => None
  }

  // A tree of the envelope with its selected fields.
  ghost predicate EnvelopeTree(s: seq<Byte>, keys: seq<seq<Byte>>, v: Value, fields: Fields) {
    && ValidValue(v) && Depth(v) <= MAX_DEPTH + 1 && ObjectFields(v, keys) == Some(fields)
    && exists lead, trail :: Blank(lead) && Blank(trail) && s == lead + Text(v) + trail
  }

  lemma ValueBytesAre(s: seq<Byte>, start: nat, next: nat, v: Value)
    requires ValidValue(v) && Spans(s, start, next, Text(v)) && start < |s|
    requires v.Str? <==> s[start] == QUOTE
    ensures start < next <= |s| && (s[start] == QUOTE ==> StringRest(s, start + 1).Some?)
    ensures ValueBytes(s, start, next) == ValueOf(v)
  {
    SpansSlice(s, start, next, Text(v));
    if v.Str? {
      assert StringText(v.chars) == [QUOTE] + (CharsText(v.chars) + [QUOTE]);
      var body := SpansSplit(s, start, next, [QUOTE], CharsText(v.chars) + [QUOTE]);
      SpansByte(s, start, body, QUOTE);
      StringComplete(s, body, next, v.chars);
    } else {
      assert Text(v) != [] by {
        TextNonempty(v);
      }
    }
  }

  lemma TextNonempty(v: Value)
    requires ValidValue(v)
    ensures Text(v) != []
  {
  }

  // A string is recognised by its first byte.
  lemma StringStarts(s: seq<Byte>, start: nat, next: nat, v: Value)
    requires ValidValue(v) && Spans(s, start, next, Text(v))
    ensures start < |s| && (v.Str? <==> s[start] == QUOTE)
  {
    TextNonempty(v);
    SpansInside(s, start, next, Text(v));
    if v.Num? {
      NumberStarts(v.number);
    }
  }

  lemma NumberStarts(n: Number)
    requires ValidNumber(n)
    ensures NumberText(n) != [] && NumberText(n)[0] != QUOTE
  {
  }

  lemma MemberSound(s: seq<Byte>, i: nat, fields: Fields, keys: seq<seq<Byte>>)
    returns (lead: seq<Byte>, tag: Label, v: Value)
    requires i <= |s| && ScanMember(s, i, fields, keys).Done?
    ensures ValidItem(Item(lead, tag, v, []), true) && Depth(v) <= MAX_DEPTH
    ensures AddItem(Item(lead, tag, v, []), keys, fields) == Some(ScanMember(s, i, fields, keys).fields)
    ensures var value := SkipSpace(s, TagEnd(s, i, true).value);
            Spans(s, i, value, lead + LabelText(tag)) && Spans(s, value, ScanMember(s, i, fields, keys).next, Text(v))
  {
    var colon, next := TagEnd(s, i, true).value, ScanMember(s, i, fields, keys).next;
    lead, tag := TagSound(s, i, true);
    v := ValueSound(s, colon, 1);
    StringStarts(s, SkipSpace(s, colon), next, v);
    ValueBytesAre(s, SkipSpace(s, colon), next, v);
  }

  lemma {:induction false} MembersSound(s: seq<Byte>, i: nat, fields: Fields, keys: seq<seq<Byte>>)
    returns (items: Items)
    requires i <= |s| && ScanMembers(s, i, fields, keys).Done?
    ensures ValidItems(items, true) && ItemsDepth(items) <= MAX_DEPTH
    ensures FieldsOf(items, keys, fields) == Some(ScanMembers(s, i, fields, keys).fields)
    ensures Spans(s, i, ScanMembers(s, i, fields, keys).next, ItemsText(items) + [Closer(true)])
    decreases |s| - i
  {
    var r := ScanMember(s, i, fields, keys);
    if Eat(s, r.next, Closer(true)).Some? {
      items := LastMemberSound(s, i, fields, keys);
    } else {
      var rest := MembersSound(s, Eat(s, r.next, COMMA).value, r.fields, keys);
      items := MoreMembersSound(s, i, fields, keys, rest);
    }
  }

  // A member before the closing brace.
  lemma LastMemberSound(s: seq<Byte>, i: nat, fields: Fields, keys: seq<seq<Byte>>) returns (items: Items)
    requires i <= |s| && ScanMember(s, i, fields, keys).Done?
    requires Eat(s, ScanMember(s, i, fields, keys).next, Closer(true)).Some?
    ensures ValidItems(items, true) && ItemsDepth(items) <= MAX_DEPTH
    ensures FieldsOf(items, keys, fields) == Some(ScanMember(s, i, fields, keys).fields)
    ensures var next := Eat(s, ScanMember(s, i, fields, keys).next, Closer(true)).value;
            Spans(s, i, next, ItemsText(items) + [Closer(true)])
  {
    var value, r := SkipSpace(s, TagEnd(s, i, true).value), ScanMember(s, i, fields, keys);
    var lead, tag, v := MemberSound(s, i, fields, keys);
    var trail := EatSound(s, r.next, Closer(true));
    items := Last(Item(lead, tag, v, trail));
    ItemJoin(s, i, value, r.next, Eat(s, r.next, Closer(true)).value, items.item, Closer(true));
  }

  lemma FieldsMore(
    item: Item, lead: seq<Byte>, tag: Label, v: Value, rest: Items, keys: seq<seq<Byte>>, fields: Fields, more: Fields)
    requires ValidItem(Item(lead, tag, v, []), true) && ValidItem(item, true) && ValidItems(rest, true)
    requires item.tag == tag && item.value == v && AddItem(Item(lead, tag, v, []), keys, fields) == Some(more)
    ensures FieldsOf(More(item, rest), keys, fields) == FieldsOf(rest, keys, more)
  {
  }

  // A member before a comma, and the members behind that.
  lemma MoreMembersSound(s: seq<Byte>, i: nat, fields: Fields, keys: seq<seq<Byte>>, rest: Items)
    returns (items: Items)
    requires i <= |s| && ScanMember(s, i, fields, keys).Done?
    requires Eat(s, ScanMember(s, i, fields, keys).next, COMMA).Some?
    requires var r := ScanMember(s, i, fields, keys);
             var comma := Eat(s, r.next, COMMA).value;
             && ScanMembers(s, comma, r.fields, keys).Done? && ValidItems(rest, true) && ItemsDepth(rest) <= MAX_DEPTH
             && FieldsOf(rest, keys, r.fields) == Some(ScanMembers(s, comma, r.fields, keys).fields)
             && Spans(s, comma, ScanMembers(s, comma, r.fields, keys).next, ItemsText(rest) + [Closer(true)])
    ensures ValidItems(items, true) && ItemsDepth(items) <= MAX_DEPTH
    ensures var r := ScanMember(s, i, fields, keys);
            var end := ScanMembers(s, Eat(s, r.next, COMMA).value, r.fields, keys);
            && FieldsOf(items, keys, fields) == Some(end.fields)
            && Spans(s, i, end.next, ItemsText(items) + [Closer(true)])
  {
    var value, r := SkipSpace(s, TagEnd(s, i, true).value), ScanMember(s, i, fields, keys);
    var comma := Eat(s, r.next, COMMA).value;
    var lead, tag, v := MemberSound(s, i, fields, keys);
    var trail := EatSound(s, r.next, COMMA);
    var item := Item(lead, tag, v, trail);
    items := More(item, rest);
    FieldsMore(item, lead, tag, v, rest, keys, fields, r.fields);
    ItemJoin(s, i, value, r.next, comma, item, COMMA);
    SpansJoin(s, i, comma, ScanMembers(s, comma, r.fields, keys).next, ItemText(item) + [COMMA],
              ItemsText(rest) + [Closer(true)]);
    MoreText(item, rest, true);
  }

  lemma MemberComplete(
    s: seq<Byte>, i: nat, next: nat, item: Item, b: Byte, fields: Fields, more: Fields, keys: seq<seq<Byte>>)
    returns (stop: nat)
    requires ValidItem(item, true) && Depth(item.value) <= MAX_DEPTH && (b == COMMA || b == Closer(true))
    requires AddItem(item, keys, fields) == Some(more)
    requires Spans(s, i, next, ItemText(item) + [b])
    ensures i <= |s| && ScanMember(s, i, fields, keys) == Done(more, stop) && stop <= |s|
    ensures Eat(s, stop, b) == Some(next) && (b == COMMA ==> Eat(s, stop, Closer(true)) == None)
    ensures Eat(s, i, Closer(true)) == None
  {
    var value;
    value, stop := ItemComplete(s, i, next, item, true, b);
    ValueComplete(s, TagEnd(s, i, true).value, value, stop, item.value, 1);
    StringStarts(s, value, stop, item.value);
    ValueBytesAre(s, value, stop, item.value);
  }

  lemma {:induction false} MembersComplete(
    s: seq<Byte>, i: nat, next: nat, items: Items, fields: Fields, more: Fields, keys: seq<seq<Byte>>)
    requires ValidItems(items, true) && ItemsDepth(items) <= MAX_DEPTH
    requires FieldsOf(items, keys, fields) == Some(more)
    requires Spans(s, i, next, ItemsText(items) + [Closer(true)])
    ensures i <= |s| && ScanMembers(s, i, fields, keys) == Done(more, next)
    ensures Eat(s, i, Closer(true)) == None
    decreases items
  {
    if items.Last? {
      var stop := MemberComplete(s, i, next, items.item, Closer(true), fields, more, keys);
    } else {
      var mid := AddItem(items.item, keys, fields).value;
      MoreText(items.item, items.rest, true);
      var comma := SpansSplit(s, i, next, ItemText(items.item) + [COMMA], ItemsText(items.rest) + [Closer(true)]);
      var stop := MemberComplete(s, i, comma, items.item, COMMA, fields, mid, keys);
      MembersComplete(s, comma, next, items.rest, mid, more, keys);
    }
  }

  // An envelope is scanned to the end exactly when it is the text of one JSON object,
  // within the depth limit and with no selected name repeated; the fields are then the
  // selected values of that object.
  lemma ScanIsObject(s: seq<Byte>, keys: seq<seq<Byte>>, fields: Fields)
    ensures ScanEnvelope(s, keys) == Done(fields, |s|) <==> exists v :: EnvelopeTree(s, keys, v, fields)
  {
    if ScanEnvelope(s, keys) == Done(fields, |s|) {
      var v := EnvelopeSound(s, keys);
    }
    if v :| EnvelopeTree(s, keys, v, fields) {
      var lead, trail :| Blank(lead) && Blank(trail) && s == lead + Text(v) + trail;
      EnvelopeComplete(s, keys, v, fields, lead, trail);
    }
  }

  lemma EnvelopeSound(s: seq<Byte>, keys: seq<seq<Byte>>) returns (v: Value)
    requires ScanEnvelope(s, keys).Done?
    ensures EnvelopeTree(s, keys, v, ScanEnvelope(s, keys).fields)
  {
    var start := Eat(s, 0, Opener(true)).value;
    var next := ScanObject(s, start, keys).next;
    var lead := EatSound(s, 0, Opener(true));
    var body;
    v, body := ObjectSound(s, start, keys);
    var trail := SpaceSound(s, next);
    EnvelopeJoin(s, start, next, lead, v, body, trail);
  }

  lemma ObjectSound(s: seq<Byte>, start: nat, keys: seq<seq<Byte>>) returns (v: Value, body: seq<Byte>)
    requires start <= |s| && ScanObject(s, start, keys).Done?
    ensures ValidValue(v) && Depth(v) <= MAX_DEPTH + 1
    ensures ObjectFields(v, keys) == Some(ScanObject(s, start, keys).fields)
    ensures Text(v) == [Opener(true)] + body && Spans(s, start, ScanObject(s, start, keys).next, body)
  {
    if Eat(s, start, Closer(true)).Some? {
      var blank := EatSound(s, start, Closer(true));
      v, body := Empty(true, blank), blank + [Closer(true)];
    } else {
      var items := MembersSound(s, start, map[], keys);
      v, body := Composite(true, items), ItemsText(items) + [Closer(true)];
    }
  }

  lemma EnvelopeJoin(
    s: seq<Byte>, start: nat, next: nat, lead: seq<Byte>, v: Value, body: seq<Byte>, trail: seq<Byte>)
    requires Text(v) == [Opener(true)] + body
    requires Spans(s, 0, start, lead + [Opener(true)]) && Spans(s, start, next, body) && Spans(s, next, |s|, trail)
    ensures s == lead + Text(v) + trail
  {
    SpansJoin(s, 0, start, next, lead + [Opener(true)], body);
    SpansJoin(s, 0, next, |s|, (lead + [Opener(true)]) + body, trail);
    SpansSlice(s, 0, |s|, (lead + [Opener(true)]) + body + trail);
    Associates(lead, [Opener(true)], body);
    assert s[0..|s|] == s;
  }

  lemma Associates(a: seq<Byte>, b: seq<Byte>, c: seq<Byte>)
    ensures (a + b) + c == a + (b + c)
  {
  }

  lemma EnvelopeComplete(
    s: seq<Byte>, keys: seq<seq<Byte>>, v: Value, fields: Fields, lead: seq<Byte>, trail: seq<Byte>)
    requires ValidValue(v) && Depth(v) <= MAX_DEPTH + 1 && ObjectFields(v, keys) == Some(fields)
    requires Blank(lead) && Blank(trail) && s == lead + Text(v) + trail
    ensures ScanEnvelope(s, keys) == Done(fields, |s|)
  {
    var body := if v.Empty? then v.blank + [Closer(true)] else ItemsText(v.items) + [Closer(true)];
    assert s[0..|s|] == s;
    assert s == (lead + [Opener(true)]) + (body + trail);
    SpansSlice(s, 0, |s|, s);
    var start := SpansSplit(s, 0, |s|, lead + [Opener(true)], body + trail);
    var next := SpansSplit(s, start, |s|, body, trail);
    EatComplete(s, 0, start, lead, Opener(true), Opener(true));
    SpaceComplete(s, next, |s|, trail);
    if v.Empty? {
      EatComplete(s, start, next, v.blank, Closer(true), Closer(true));
    } else {
      MembersComplete(s, start, next, v.items, map[], fields, keys);
    }
  }
}
