/**
 What the framing of a helper's output means: a byte at a time it is a small machine,
 and over a whole stream it is one pass that cuts the stream at its newlines.
 */
module Framing {
  import opened Utf8
  import opened NativeRecord
  import opened RecordMeaning

  const NEWLINE: Byte := 0x0A

  datatype Message = Chunk(bytes: seq<Byte>, arrival: int, lossBefore: bool) | End(lossBefore: bool)

  datatype Event = Cell(byte: Byte, arrival: int) | Gap | Eof

  datatype Reason = Malformed | BeyondLimits | Oversized | Incomplete | Lost

  datatype Content = Entry(record: Record) | Report(reason: Reason)

  datatype Item = Item(content: Content, arrival: int)

  // The frame being read, what is being discarded, and the counters.
  datatype State = State(
    frame: seq<Byte>, draining: bool, rawLost: bool, arrival: int,
    malformed: nat, oversized: nat, clipped: nat)

  const START := State([], false, false, 0, 0, 0, 0)

  // What a complete line within the size bound becomes, and whether values were cut off.
  datatype Parser = Parser(parse: seq<Byte> -> Content, clips: seq<Byte> -> bool)

  // A record keeps the line it came from, and a line that gives none is reported for its
  // contents.
  ghost predicate Faithful(parser: Parser) {
    forall line ::
      match parser.parse(line)
      case Entry(record) => record.raw == line
      case Report(reason) => reason == Malformed || reason == BeyondLimits
  }

  ghost function ParserOf(schema: Schema): (parser: Parser) {
    Parser(line => Parsed(line, schema), line => WasClipped(line, schema))
  }

  ghost function Parsed(line: seq<Byte>, schema: Schema): (content: Content) {
    match Decoding(line, schema)
    case Published(record) => Entry(record)
    case Invalid => Report(Malformed)
    case Limit => Report(BeyondLimits)
  }

  ghost predicate WasClipped(line: seq<Byte>, schema: Schema) {
    Judge(line, schema).Accepted? && Overflows(Judge(line, schema).fields)
  }

  lemma ParserApplies(line: seq<Byte>, schema: Schema)
    ensures ParserOf(schema).parse(line) == Parsed(line, schema)
    ensures ParserOf(schema).clips(line) == WasClipped(line, schema)
  {
  }

  // What a line becomes, told without the parser: a record that says what it should, exactly
  // if it is an acceptable envelope; else a report: that it is too long, exactly if it is; on
  // limits, exactly if it is a well-formed text within the bound that nests too deep; or that
  // it is malformed.
  ghost predicate Becomes(line: seq<Byte>, schema: Schema, content: Content) {
    && (content.Entry? <==> exists fields :: Acceptable(line, schema, fields))
    && (content.Entry? ==>
          exists fields :: Acceptable(line, schema, fields) && RecordMeans(line, schema, fields, content.record))
    && (content == Report(Oversized) <==> |line| > 64 * 1024)
    && (content == Report(BeyondLimits) <==> |line| <= 64 * 1024 && Excessive(line, schema))
    && (content.Report? ==> content.reason in {Malformed, BeyondLimits, Oversized})
  }

  // Each line becomes what it should; and exactly those count as clipped that are acceptable
  // and have an overlong selected value.
  lemma LineBecomes(line: seq<Byte>, schema: Schema)
    ensures Becomes(line, schema, ContentOf(line, ParserOf(schema)))
    ensures ParserOf(schema).clips(line) <==> Overlong(line, schema)
  {
    ParserApplies(line, schema);
    DecodingAnswers(line, schema);
    OverlongExactly(line, schema);
  }

  function ContentOf(line: seq<Byte>, parser: Parser): (content: Content) {
    if |line| <= BATCH_BYTES then parser.parse(line) else Report(Oversized)
  }

  lemma ParserIsFaithful(schema: Schema)
    ensures Faithful(ParserOf(schema))
  {
    forall line
      ensures match ParserOf(schema).parse(line)
              case Entry(record) => record.raw == line
              case Report(reason) => reason == Malformed || reason == BeyondLimits
    {
      ParserApplies(line, schema);
    }
  }

  // ----- The machine ------------------------------------------------------------------

  // The arrival of a frame is that of its first byte.
  function Begun(st: State, arrival: int): (next: State) {
    if st.frame == [] && !st.draining then st.(arrival := arrival) else st
  }

  function Counted(st: State, parser: Parser): (next: State) {
    if st.draining then (if st.rawLost then st else st.(oversized := st.oversized + 1))
    else if st.frame == [] then st
    else if parser.parse(st.frame).Report? then st.(malformed := st.malformed + 1)
    else if parser.clips(st.frame) then st.(clipped := st.clipped + 1)
    else st
  }

  function Finished(st: State, parser: Parser): (next: State) {
    Counted(st, parser).(frame := [], draining := false, rawLost := false)
  }

  function FinishedItems(st: State, parser: Parser): (items: seq<Item>) {
    if st.draining then (if st.rawLost then [] else [Item(Report(Oversized), st.arrival)])
    else if st.frame == [] then []
    else [Item(parser.parse(st.frame), st.arrival)]
  }

  function After(st: State, e: Event, parser: Parser): (next: State) {
    match e
    case Gap => st.(frame := [], draining := true, rawLost := true, malformed := st.malformed + 1)
    case Eof =>
      if st.frame != [] || st.draining
      then st.(frame := [], draining := false, malformed := st.malformed + 1) else st
    case Cell(byte, arrival) =>
      var begun := Begun(st, arrival);
      if byte == NEWLINE then Finished(begun, parser)
      else if st.draining then begun
      else if |st.frame| == BATCH_BYTES then begun.(frame := [], draining := true)
      else begun.(frame := st.frame + [byte])
  }

  function Output(st: State, e: Event, parser: Parser): (items: seq<Item>) {
    match e
    case Gap => [Item(Report(Lost), st.arrival)]
    case Eof => if st.frame != [] || st.draining then [Item(Report(Incomplete), st.arrival)] else []
    case Cell(byte, arrival) => if byte == NEWLINE then FinishedItems(Begun(st, arrival), parser) else []
  }

  function Drive(st: State, events: seq<Event>, parser: Parser): (end: State)
    decreases |events|
  {
    if events == [] then st else Drive(After(st, events[0], parser), events[1..], parser)
  }

  function Emit(st: State, events: seq<Event>, parser: Parser): (items: seq<Item>)
    decreases |events|
  {
    if events == [] then []
    else Output(st, events[0], parser) + Emit(After(st, events[0], parser), events[1..], parser)
  }

  // Running on is the same as running in one go.
  lemma {:induction false} RunOn(st: State, a: seq<Event>, b: seq<Event>, parser: Parser)
    ensures Drive(st, a + b, parser) == Drive(Drive(st, a, parser), b, parser)
    ensures Emit(st, a + b, parser) == Emit(st, a, parser) + Emit(Drive(st, a, parser), b, parser)
    decreases |a|
  {
    if a == [] {
      assert a + b == b;
    } else {
      assert (a + b)[1..] == a[1..] + b;
      RunOn(After(st, a[0], parser), a[1..], b, parser);
    }
  }

  lemma RunOne(st: State, a: seq<Event>, e: Event, parser: Parser)
    ensures Drive(st, a + [e], parser) == After(Drive(st, a, parser), e, parser)
    ensures Emit(st, a + [e], parser) == Emit(st, a, parser) + Output(Drive(st, a, parser), e, parser)
  {
    RunOn(st, a, [e], parser);
    var mid := Drive(st, a, parser);
    assert [e][1..] == [];
    assert Emit(mid, [e], parser) == Output(mid, e, parser) + [];
  }

  // ----- From messages to events ------------------------------------------------------

  function Cells(bytes: seq<Byte>, arrival: int): (cells: seq<Event>)
    ensures |cells| == |bytes|
  {
    seq(|bytes|, i requires 0 <= i < |bytes| => Cell(bytes[i], arrival))
  }

  function Unroll(messages: seq<Message>): (events: seq<Event>) {
    if messages == [] then []
    else
      var last := messages[|messages| - 1];
      Unroll(messages[..|messages| - 1]) +
      (if last.End? then [Eof]
       else (if last.lossBefore then [Gap] else []) + Cells(last.bytes, last.arrival))
  }

  lemma UnrollMore(messages: seq<Message>, m: Message)
    ensures Unroll(messages + [m]) ==
            Unroll(messages) +
            (if m.End? then [Eof] else (if m.lossBefore then [Gap] else []) + Cells(m.bytes, m.arrival))
  {
    assert (messages + [m])[..|messages|] == messages;
  }

  // ----- One pass over a whole stream -------------------------------------------------

  predicate Plain(e: Event) {
    e.Cell? && e.byte != NEWLINE
  }

  // How many bytes come before the first newline, gap or end.
  function Run(events: seq<Event>): (n: nat)
    ensures n <= |events|
  {
    if events == [] || !Plain(events[0]) then 0 else 1 + Run(events[1..])
  }

  lemma {:induction false} RunIsPlain(events: seq<Event>)
    ensures forall k :: 0 <= k < Run(events) ==> Plain(events[k])
    ensures Run(events) < |events| ==> !Plain(events[Run(events)])
  {
    if events != [] && Plain(events[0]) {
      RunIsPlain(events[1..]);
      forall k | 0 <= k < Run(events) ensures Plain(events[k]) {
        assert k > 0 ==> events[k] == events[1..][k - 1];
      }
    }
  }

  function Bytes(events: seq<Event>): (bytes: seq<Byte>)
    ensures |bytes| == |events|
  {
    seq(|events|, i requires 0 <= i < |events| => if events[i].Cell? then events[i].byte else 0)
  }

  // What one line becomes.
  function Line(line: seq<Byte>, arrival: int, parser: Parser): (items: seq<Item>) {
    if line == [] then [] else [Item(ContentOf(line, parser), arrival)]
  }

  // The arrival of a line whose first n bytes are here; the one before if it has none.
  function Since(events: seq<Event>, n: nat, latest: int): (arrival: int) {
    if 0 < n <= |events| && events[0].Cell? then events[0].arrival else latest
  }

  // Line by line: each newline ends a line, a gap voids the line it falls into, and the
  // end of the stream reports a line it cuts short.
  function OnePass(events: seq<Event>, latest: int, parser: Parser): (items: seq<Item>)
    decreases |events|
  {
    var n := Run(events);
    if n == |events| then []
    else match events[n]
      case Cell(_, _) =>
        var arrival := Since(events, n + 1, latest);
        Line(Bytes(events[..n]), arrival, parser) + OnePass(events[n + 1..], arrival, parser)
      case Gap =>
        [Item(Report(Lost), Since(events, n, latest))] + Resume(events[n + 1..], Since(events, n, latest), parser)
      case Eof => if n == 0 then [] else [Item(Report(Incomplete), Since(events, n, latest))]
  }

  // After a gap nothing counts until a newline has gone by.
  function Resume(events: seq<Event>, latest: int, parser: Parser): (items: seq<Item>)
    decreases |events|
  {
    var n := Run(events);
    if n == |events| then []
    else match events[n]
      case Cell(_, _) => OnePass(events[n + 1..], latest, parser)
      case Gap => [Item(Report(Lost), latest)] + Resume(events[n + 1..], latest, parser)
      case Eof => [Item(Report(Incomplete), latest)]
  }

  // The end comes last, if it comes.
  ghost predicate EndsOnce(events: seq<Event>) {
    forall k :: 0 <= k < |events| && events[k] == Eof ==> k == |events| - 1
  }

  // ----- The machine makes that one pass ----------------------------------------------

  predicate Fresh(st: State) {
    st.frame == [] && !st.draining && !st.rawLost
  }

  predicate Skipping(st: State) {
    st.frame == [] && st.draining && st.rawLost
  }

  // The state within a line of which the given bytes have been read.
  function Within(st: State, line: seq<Byte>, arrival: int): (mid: State) {
    if line == [] then st
    else if |line| <= BATCH_BYTES then st.(frame := line, arrival := arrival)
    else st.(draining := true, arrival := arrival)
  }

  lemma {:induction false} ReadLine(st: State, events: seq<Event>, n: nat, parser: Parser)
    requires Fresh(st) && n <= |events| && forall k :: 0 <= k < n ==> Plain(events[k])
    ensures Drive(st, events[..n], parser) == Within(st, Bytes(events[..n]), Since(events, n, st.arrival))
    ensures Emit(st, events[..n], parser) == []
  {
    if n > 0 {
      ReadLine(st, events, n - 1, parser);
      assert events[..n] == events[..n - 1] + [events[n - 1]];
      assert Bytes(events[..n]) == Bytes(events[..n - 1]) + [events[n - 1].byte];
      RunOne(st, events[..n - 1], events[n - 1], parser);
    }
  }

  lemma {:induction false} SkipLine(st: State, events: seq<Event>, n: nat, parser: Parser)
    requires Skipping(st) && n <= |events| && forall k :: 0 <= k < n ==> Plain(events[k])
    ensures Drive(st, events[..n], parser) == st && Emit(st, events[..n], parser) == []
  {
    if n > 0 {
      SkipLine(st, events, n - 1, parser);
      assert events[..n] == events[..n - 1] + [events[n - 1]];
      RunOne(st, events[..n - 1], events[n - 1], parser);
    }
  }

  // The items of a stream, cut after its first n + 1 events.
  lemma CutAfter(st: State, events: seq<Event>, n: nat, mid: State, parser: Parser)
    requires n < |events| && Drive(st, events[..n], parser) == mid && Emit(st, events[..n], parser) == []
    ensures Emit(st, events, parser) ==
            Output(mid, events[n], parser) + Emit(After(mid, events[n], parser), events[n + 1..], parser)
  {
    assert events == events[..n] + events[n..];
    assert events[n..][1..] == events[n + 1..];
    RunOn(st, events[..n], events[n..], parser);
  }

  lemma EndsLater(events: seq<Event>, n: nat)
    requires EndsOnce(events) && n <= |events|
    ensures EndsOnce(events[n..]) && (n < |events| && events[n] == Eof ==> events[n + 1..] == [])
  {
    forall k | 0 <= k < |events| - n && events[n..][k] == Eof
      ensures k == |events| - n - 1
    {
      assert events[n + k] == Eof;
    }
  }

  // What ends a line within which the given bytes have been read.
  lemma LineEnds(st: State, line: seq<Byte>, arrival: int, e: Event, parser: Parser)
    requires Fresh(st) && !Plain(e)
    ensures var mid := Within(st, line, arrival);
            var began := if line == [] && e.Cell? then e.arrival else if line == [] then st.arrival else arrival;
            match e
            case Cell(_, _) =>
              && Output(mid, e, parser) == Line(line, began, parser)
              && Fresh(After(mid, e, parser)) && After(mid, e, parser).arrival == began
            case Gap =>
              && Output(mid, e, parser) == [Item(Report(Lost), began)]
              && Skipping(After(mid, e, parser)) && After(mid, e, parser).arrival == began
            case Eof => Output(mid, e, parser) == if line == [] then [] else [Item(Report(Incomplete), began)]
  {
  }

  // A line and what ends it, read afresh: what comes out, and the state that is left.
  lemma FreshLine(st: State, events: seq<Event>, parser: Parser) returns (next: State)
    requires Fresh(st) && EndsOnce(events) && Run(events) < |events|
    ensures var n := Run(events);
            var began := if events[n].Cell? then Since(events, n + 1, st.arrival) else Since(events, n, st.arrival);
            var rest := Emit(next, events[n + 1..], parser);
            && EndsOnce(events[n + 1..])
            && match events[n]
               case Cell(_, _) =>
                 && Fresh(next) && next.arrival == began
                 && Emit(st, events, parser) == Line(Bytes(events[..n]), began, parser) + rest
               case Gap =>
                 && Skipping(next) && next.arrival == began
                 && Emit(st, events, parser) == [Item(Report(Lost), began)] + rest
               case Eof => Emit(st, events, parser) == if n == 0 then [] else [Item(Report(Incomplete), began)]
  {
    var n := Run(events);
    var line, arrival := Bytes(events[..n]), Since(events, n, st.arrival);
    RunIsPlain(events);
    ReadLine(st, events, n, parser);
    var mid := Within(st, line, arrival);
    CutAfter(st, events, n, mid, parser);
    next := After(mid, events[n], parser);
    LineEnds(st, line, arrival, events[n], parser);
    EndsLater(events, n);
    EndsLater(events, n + 1);
  }

  // The rest of a line that is skipped and what ends it.
  lemma SkippedLine(st: State, events: seq<Event>, parser: Parser) returns (next: State)
    requires Skipping(st) && EndsOnce(events) && Run(events) < |events|
    ensures var n := Run(events);
            var rest := Emit(next, events[n + 1..], parser);
            && EndsOnce(events[n + 1..]) && next.arrival == st.arrival
            && match events[n]
               case Cell(_, _) => Fresh(next) && Emit(st, events, parser) == rest
               case Gap => Skipping(next) && Emit(st, events, parser) == [Item(Report(Lost), st.arrival)] + rest
               case Eof => Emit(st, events, parser) == [Item(Report(Incomplete), st.arrival)]
  {
    var n := Run(events);
    RunIsPlain(events);
    SkipLine(st, events, n, parser);
    CutAfter(st, events, n, st, parser);
    EndsLater(events, n);
    EndsLater(events, n + 1);
    next := After(st, events[n], parser);
  }

  lemma {:induction false} FreshIsOnePass(st: State, events: seq<Event>, parser: Parser)
    requires Fresh(st) && EndsOnce(events)
    ensures Emit(st, events, parser) == OnePass(events, st.arrival, parser)
    decreases |events|
  {
    var n := Run(events);
    RunIsPlain(events);
    if n == |events| {
      ReadLine(st, events, n, parser);
      assert events[..n] == events;
    } else {
      var next := FreshLine(st, events, parser);
      match events[n] {
        case Cell(_, _) =>
          FreshIsOnePass(next, events[n + 1..], parser);
        case Gap =>
          SkippingIsResume(next, events[n + 1..], parser);
        case Eof =>
      }
    }
  }

  lemma {:induction false} SkippingIsResume(st: State, events: seq<Event>, parser: Parser)
    requires Skipping(st) && EndsOnce(events)
    ensures Emit(st, events, parser) == Resume(events, st.arrival, parser)
    decreases |events|
  {
    var n := Run(events);
    if n == |events| {
      RunIsPlain(events);
      SkipLine(st, events, n, parser);
      assert events[..n] == events;
    } else {
      var next := SkippedLine(st, events, parser);
      match events[n] {
        case Cell(_, _) =>
          FreshIsOnePass(next, events[n + 1..], parser);
        case Gap =>
          SkippingIsResume(next, events[n + 1..], parser);
        case Eof =>
      }
    }
  }

  // ----- Entries are whole lines ------------------------------------------------------

  predicate IsNewline(e: Event) {
    e.Cell? && e.byte == '\n' as int
  }

  // The events from i to j are the bytes of a line, complete and without a gap; only a
  // stream that starts afresh may have its first line at its start.
  ghost predicate WholeLine(events: seq<Event>, i: nat, j: nat, anew: bool, raw: seq<Byte>) {
    && i <= j < |events| && IsNewline(events[j]) && Bytes(events[i..j]) == raw
    && (forall k :: i <= k < j ==> Plain(events[k]))
    && (if i == 0 then anew else IsNewline(events[i - 1]))
  }

  // A whole line of which the parser makes this content.
  ghost predicate HasLine(events: seq<Event>, anew: bool, parser: Parser, content: Content) {
    exists i: nat, j: nat, raw ::
      WholeLine(events, i, j, anew, raw) && raw != [] && ContentOf(raw, parser) == content
  }

  // Contents that come of a line: records, and reports on what a line contains.
  predicate OfLine(content: Content) {
    match content
    case Entry(_) => true
    case Report(reason) => reason in {Malformed, BeyondLimits, Oversized}
  }

  ghost predicate ItemsAreLines(items: seq<Item>, events: seq<Event>, anew: bool, parser: Parser) {
    forall k :: 0 <= k < |items| && OfLine(items[k].content) ==> HasLine(events, anew, parser, items[k].content)
  }

  lemma LineLater(events: seq<Event>, n: nat, anew: bool, parser: Parser, content: Content)
    requires n < |events| && HasLine(events[n + 1..], IsNewline(events[n]), parser, content)
    ensures HasLine(events, anew, parser, content)
  {
    var i: nat, j: nat, raw :|
      WholeLine(events[n + 1..], i, j, IsNewline(events[n]), raw) && raw != [] && ContentOf(raw, parser) == content;
    assert events[n + 1..][i..j] == events[n + 1 + i..n + 1 + j];
    forall k | n + 1 + i <= k < n + 1 + j ensures Plain(events[k]) {
      assert events[k] == events[n + 1..][k - n - 1];
    }
    assert i > 0 ==> events[n + 1 + i - 1] == events[n + 1..][i - 1];
    assert WholeLine(events, n + 1 + i, n + 1 + j, anew, raw);
  }

  lemma ItemsLater(items: seq<Item>, events: seq<Event>, n: nat, anew: bool, parser: Parser)
    requires n < |events| && ItemsAreLines(items, events[n + 1..], IsNewline(events[n]), parser)
    ensures ItemsAreLines(items, events, anew, parser)
  {
    forall k | 0 <= k < |items| && OfLine(items[k].content)
      ensures HasLine(events, anew, parser, items[k].content)
    {
      LineLater(events, n, anew, parser, items[k].content);
    }
  }

  lemma FirstLine(events: seq<Event>, arrival: int, parser: Parser)
    requires Run(events) < |events| && IsNewline(events[Run(events)])
    ensures ItemsAreLines(Line(Bytes(events[..Run(events)]), arrival, parser), events, true, parser)
  {
    RunIsPlain(events);
    assert events[0..Run(events)] == events[..Run(events)];
    assert WholeLine(events, 0, Run(events), true, Bytes(events[..Run(events)]));
  }

  // Every record, and every report on contents, comes of one whole line:
  // never of bytes on both sides of a gap or a newline, nor of the rest of a line after a gap.
  lemma {:induction false} ItemsAreWholeLines(events: seq<Event>, latest: int, parser: Parser)
    ensures ItemsAreLines(OnePass(events, latest, parser), events, true, parser)
    decreases |events|
  {
    var n := Run(events);
    if n < |events| {
      RunIsPlain(events);
      match events[n] {
        case Cell(_, _) =>
          var arrival := Since(events, n + 1, latest);
          FirstLine(events, arrival, parser);
          ItemsAreWholeLines(events[n + 1..], arrival, parser);
          ItemsLater(OnePass(events[n + 1..], arrival, parser), events, n, true, parser);
        case Gap =>
          var arrival := Since(events, n, latest);
          ItemsResume(events[n + 1..], arrival, parser);
          ItemsLater(Resume(events[n + 1..], arrival, parser), events, n, true, parser);
        case Eof =>
      }
    }
  }

  lemma {:induction false} ItemsResume(events: seq<Event>, latest: int, parser: Parser)
    ensures ItemsAreLines(Resume(events, latest, parser), events, false, parser)
    decreases |events|
  {
    var n := Run(events);
    if n < |events| {
      RunIsPlain(events);
      match events[n] {
        case Cell(_, _) =>
          ItemsAreWholeLines(events[n + 1..], latest, parser);
          ItemsLater(OnePass(events[n + 1..], latest, parser), events, n, false, parser);
        case Gap =>
          ItemsResume(events[n + 1..], latest, parser);
          ItemsLater(Resume(events[n + 1..], latest, parser), events, n, false, parser);
        case Eof =>
      }
    }
  }

  // The other way round: every whole line has its item in its place, behind those of all that
  // comes before it, with the arrival of its first byte.
  lemma LineHasItem(events: seq<Event>, i: nat, j: nat, raw: seq<Byte>, latest: int, parser: Parser)
    requires EndsOnce(events) && WholeLine(events, i, j, true, raw) && raw != []
    ensures var items, k := OnePass(events, latest, parser), |OnePass(events[..i], latest, parser)|;
            k < |items| && items[k] == Item(ContentOf(raw, parser), events[i].arrival)
  {
    var st := START.(arrival := latest);
    var before, after := events[..i], events[i..];
    assert events == before + after;
    assert EndsOnce(before);
    EndsLater(events, i);
    FreshIsOnePass(st, events, parser);
    FreshIsOnePass(st, before, parser);
    RunOn(st, before, after, parser);
    FreshAfterNewline(st, before, parser);
    var mid := Drive(st, before, parser);
    RunsTo(after, j - i, events, i);
    assert after[..j - i] == events[i..j];
    FreshIsOnePass(mid, after, parser);
  }

  lemma FreshAfterNewline(st: State, events: seq<Event>, parser: Parser)
    requires Fresh(st) && (events == [] || IsNewline(events[|events| - 1]))
    ensures Fresh(Drive(st, events, parser))
  {
    if events != [] {
      var init, last := events[..|events| - 1], events[|events| - 1];
      assert events == init + [last];
      RunOne(st, init, last, parser);
    }
  }

  lemma {:induction false} RunsTo(after: seq<Event>, n: nat, events: seq<Event>, i: nat)
    requires i + n < |events| && after == events[i..] && IsNewline(events[i + n])
    requires forall k :: i <= k < i + n ==> Plain(events[k])
    ensures Run(after) == n
  {
    if n > 0 {
      assert after[0] == events[i] && Plain(events[i]);
      RunsTo(after[1..], n - 1, events, i + 1);
    }
  }

  // The items of a stream, told without the parser: those that come of lines are what whole
  // lines of the stream become, and every whole line that is not empty has one, in its place.
  ghost predicate LinesBecome(events: seq<Event>, items: seq<Item>, latest: int, schema: Schema) {
    && (forall k :: 0 <= k < |items| && OfLine(items[k].content) ==> IsOfLine(events, items[k].content, schema))
    && (forall i: nat, j: nat, raw :: WholeLine(events, i, j, true, raw) && raw != [] ==>
          HasItem(events, items, latest, schema, i, raw))
  }

  ghost predicate IsOfLine(events: seq<Event>, content: Content, schema: Schema) {
    exists i: nat, j: nat, raw ::
      WholeLine(events, i, j, true, raw) && raw != [] && Becomes(raw, schema, content)
  }

  ghost predicate HasItem(
    events: seq<Event>, items: seq<Item>, latest: int, schema: Schema, i: nat, raw: seq<Byte>)
    requires i < |events|
  {
    var k := |OnePass(events[..i], latest, ParserOf(schema))|;
    k < |items| && events[i].Cell? && items[k].arrival == events[i].arrival && Becomes(raw, schema, items[k].content)
  }

  lemma OnePassBecomes(events: seq<Event>, latest: int, schema: Schema)
    requires EndsOnce(events)
    ensures LinesBecome(events, OnePass(events, latest, ParserOf(schema)), latest, schema)
  {
    var parser := ParserOf(schema);
    var items := OnePass(events, latest, parser);
    ItemsAreWholeLines(events, latest, parser);
    forall k | 0 <= k < |items| && OfLine(items[k].content) ensures IsOfLine(events, items[k].content, schema) {
      var i: nat, j: nat, raw :|
        WholeLine(events, i, j, true, raw) && raw != [] && ContentOf(raw, parser) == items[k].content;
      LineBecomes(raw, schema);
    }
    forall i: nat, j: nat, raw | WholeLine(events, i, j, true, raw) && raw != []
      ensures HasItem(events, items, latest, schema, i, raw)
    {
      LineHasItem(events, i, j, raw, latest, parser);
      LineBecomes(raw, schema);
      assert Plain(events[i]);
    }
  }

  // ----- The counters count what is reported ------------------------------------------

  function Tally(items: seq<Item>, reason: Reason): (count: nat) {
    if items == [] then 0
    else Tally(items[1..], reason) + (if items[0].content == Report(reason) then 1 else 0)
  }

  // How many records are of lines with values that were cut off.
  function Cuts(items: seq<Item>, clips: seq<Byte> -> bool): (count: nat) {
    if items == [] then 0
    else
      Cuts(items[1..], clips) +
      (if items[0].content.Entry? && clips(items[0].content.record.raw) then 1 else 0)
  }

  lemma {:induction false} TallyConcat(a: seq<Item>, b: seq<Item>, reason: Reason)
    ensures Tally(a + b, reason) == Tally(a, reason) + Tally(b, reason)
  {
    if a == [] {
      assert a + b == b;
    } else {
      assert (a + b)[1..] == a[1..] + b;
      TallyConcat(a[1..], b, reason);
    }
  }

  lemma {:induction false} CutsConcat(a: seq<Item>, b: seq<Item>, clips: seq<Byte> -> bool)
    ensures Cuts(a + b, clips) == Cuts(a, clips) + Cuts(b, clips)
  {
    if a == [] {
      assert a + b == b;
    } else {
      assert (a + b)[1..] == a[1..] + b;
      CutsConcat(a[1..], b, clips);
    }
  }

  // How many reports count as malformed.
  function MalformedReports(items: seq<Item>): (count: nat) {
    Tally(items, Malformed) + Tally(items, BeyondLimits) + Tally(items, Incomplete) + Tally(items, Lost)
  }

  lemma MalformedConcat(a: seq<Item>, b: seq<Item>)
    ensures MalformedReports(a + b) == MalformedReports(a) + MalformedReports(b)
    ensures Tally(a + b, Oversized) == Tally(a, Oversized) + Tally(b, Oversized)
  {
    TallyConcat(a, b, Malformed);
    TallyConcat(a, b, BeyondLimits);
    TallyConcat(a, b, Incomplete);
    TallyConcat(a, b, Lost);
    TallyConcat(a, b, Oversized);
  }

  lemma TallyOne(item: Item, clips: seq<Byte> -> bool)
    ensures MalformedReports([item]) ==
            if item.content.Report? && item.content.reason != Oversized then 1 else 0
    ensures Tally([item], Oversized) == if item.content == Report(Oversized) then 1 else 0
    ensures Cuts([item], clips) == if item.content.Entry? && clips(item.content.record.raw) then 1 else 0
  {
    assert [item][1..] == [];
    assert forall reason :: Tally([item], reason) == if item.content == Report(reason) then 1 else 0;
  }

  lemma OneCounted(st: State, e: Event, parser: Parser)
    requires Faithful(parser)
    ensures After(st, e, parser).malformed == st.malformed + MalformedReports(Output(st, e, parser))
    ensures After(st, e, parser).oversized == st.oversized + Tally(Output(st, e, parser), Oversized)
    ensures After(st, e, parser).clipped == st.clipped + Cuts(Output(st, e, parser), parser.clips)
  {
    var items := Output(st, e, parser);
    if items != [] {
      assert items == [items[0]];
      TallyOne(items[0], parser.clips);
    }
  }

  // Each counter grows by the reports of its kind, and by the records that were cut.
  lemma {:induction false} CountersCount(st: State, events: seq<Event>, parser: Parser)
    requires Faithful(parser)
    ensures Drive(st, events, parser).malformed == st.malformed + MalformedReports(Emit(st, events, parser))
    ensures Drive(st, events, parser).oversized == st.oversized + Tally(Emit(st, events, parser), Oversized)
    ensures Drive(st, events, parser).clipped == st.clipped + Cuts(Emit(st, events, parser), parser.clips)
    decreases |events|
  {
    if events != [] {
      var next := After(st, events[0], parser);
      OneCounted(st, events[0], parser);
      CountersCount(next, events[1..], parser);
      MalformedConcat(Output(st, events[0], parser), Emit(next, events[1..], parser));
      CutsConcat(Output(st, events[0], parser), Emit(next, events[1..], parser), parser.clips);
    }
  }

  // ----- Losses are reported ----------------------------------------------------------

  function Gaps(events: seq<Event>): (count: nat) {
    if events == [] then 0 else (if events[0].Gap? then 1 else 0) + Gaps(events[1..])
  }

  lemma {:induction false} GapsConcat(a: seq<Event>, b: seq<Event>)
    ensures Gaps(a + b) == Gaps(a) + Gaps(b)
  {
    if a == [] {
      assert a + b == b;
    } else {
      assert (a + b)[1..] == a[1..] + b;
      GapsConcat(a[1..], b);
    }
  }

  lemma {:induction false} NoGaps(events: seq<Event>)
    requires forall k :: 0 <= k < |events| ==> !events[k].Gap?
    ensures Gaps(events) == 0
  {
    if events != [] {
      NoGaps(events[1..]);
    }
  }

  // Of the losses that messages carry, those before bytes, and all.
  function LossesBeforeBytes(messages: seq<Message>): (count: nat) {
    if messages == [] then 0
    else
      var last := messages[|messages| - 1];
      LossesBeforeBytes(messages[..|messages| - 1]) + (if last.Chunk? && last.lossBefore then 1 else 0)
  }

  function Losses(messages: seq<Message>): (count: nat) {
    if messages == [] then 0
    else Losses(messages[..|messages| - 1]) + (if messages[|messages| - 1].lossBefore then 1 else 0)
  }

  ghost predicate EndsWithLoss(messages: seq<Message>) {
    exists k :: 0 <= k < |messages| && messages[k] == End(true)
  }

  lemma {:induction false} GapsAreLosses(messages: seq<Message>)
    ensures Gaps(Unroll(messages)) == LossesBeforeBytes(messages)
  {
    if messages != [] {
      var init, last := messages[..|messages| - 1], messages[|messages| - 1];
      GapsAreLosses(init);
      if last.End? {
        NoGaps([Eof]);
        GapsConcat(Unroll(init), [Eof]);
      } else {
        var gap, cells := if last.lossBefore then [Gap] else [], Cells(last.bytes, last.arrival);
        NoGaps(cells);
        assert Gaps([Gap]) == 1;
        GapsConcat(gap, cells);
        GapsConcat(Unroll(init), gap + cells);
      }
    }
  }

  // Every gap gives one report of a loss, and nothing else does.
  lemma {:induction false} GapsAreReported(st: State, events: seq<Event>, parser: Parser)
    requires Faithful(parser)
    ensures Tally(Emit(st, events, parser), Lost) == Gaps(events)
    decreases |events|
  {
    if events != [] {
      var items, next := Output(st, events[0], parser), After(st, events[0], parser);
      GapsAreReported(next, events[1..], parser);
      TallyConcat(items, Emit(next, events[1..], parser), Lost);
      assert items != [] ==> items == [items[0]] && items[1..] == [];
    }
  }

  lemma {:induction false} LossesSplit(messages: seq<Message>)
    ensures LossesBeforeBytes(messages) <= Losses(messages)
    ensures LossesBeforeBytes(messages) == Losses(messages) <==> !EndsWithLoss(messages)
  {
    if messages != [] {
      var init, last := messages[..|messages| - 1], messages[|messages| - 1];
      LossesSplit(init);
      if EndsWithLoss(init) {
        var k :| 0 <= k < |init| && init[k] == End(true);
        assert messages[k] == End(true);
      }
      assert messages[|messages| - 1] == last;
    }
  }

  // The losses reported are those before bytes: so every loss that messages carry is reported,
  // once, exactly when no end carries one.
  lemma LossesReported(messages: seq<Message>, st: State, parser: Parser)
    requires Faithful(parser)
    ensures Tally(Emit(st, Unroll(messages), parser), Lost) == LossesBeforeBytes(messages)
    ensures Tally(Emit(st, Unroll(messages), parser), Lost) == Losses(messages) <==> !EndsWithLoss(messages)
  {
    GapsAreReported(st, Unroll(messages), parser);
    GapsAreLosses(messages);
    LossesSplit(messages);
  }

  lemma {:induction false} UnfinishedLine(events: seq<Event>, parser: Parser)
    requires Faithful(parser) && Eof !in events
    ensures var st := Drive(START, events, parser);
            st.frame != [] || st.draining <==> events != [] && !IsNewline(events[|events| - 1])
    ensures Tally(Emit(START, events, parser), Incomplete) == 0
  {
    if events != [] {
      var init, last := events[..|events| - 1], events[|events| - 1];
      assert events == init + [last];
      UnfinishedLine(init, parser);
      RunOne(START, init, last, parser);
      NotIncomplete(Drive(START, init, parser), last, parser);
      TallyConcat(Emit(START, init, parser), Output(Drive(START, init, parser), last, parser), Incomplete);
      OpenAfter(Drive(START, init, parser), last, parser);
    }
  }

  lemma NotIncomplete(st: State, e: Event, parser: Parser)
    requires Faithful(parser) && e != Eof
    ensures Tally(Output(st, e, parser), Incomplete) == 0
  {
    var items := Output(st, e, parser);
    assert items != [] ==> items == [items[0]] && items[1..] == [];
  }

  // A line is open behind everything but a newline.
  lemma OpenAfter(st: State, e: Event, parser: Parser)
    requires e != Eof
    ensures var next := After(st, e, parser); next.frame != [] || next.draining <==> !IsNewline(e)
  {
  }

  // The end of a stream is reported exactly if it cuts a line short: if there is something
  // before it, and that is not a newline. Nothing else is reported as cut short.
  lemma EndReported(events: seq<Event>, parser: Parser)
    requires Faithful(parser) && Eof !in events
    ensures Tally(Emit(START, events, parser), Incomplete) == 0
    ensures Tally(Emit(START, events + [Eof], parser), Incomplete) ==
            if events != [] && !IsNewline(events[|events| - 1]) then 1 else 0
  {
    UnfinishedLine(events, parser);
    RunOne(START, events, Eof, parser);
    var items := Output(Drive(START, events, parser), Eof, parser);
    TallyConcat(Emit(START, events, parser), items, Incomplete);
    assert items != [] ==> items == [items[0]] && items[1..] == [];
  }

  // ----- How the stream was cut into messages does not matter -------------------------

  predicate SameButForTime(a: seq<Event>, b: seq<Event>) {
    |a| == |b| &&
    forall k :: 0 <= k < |a| ==> a[k] == b[k] || (a[k].Cell? && b[k].Cell? && a[k].byte == b[k].byte)
  }

  function Contents(items: seq<Item>): (contents: seq<Content>)
    ensures |contents| == |items|
  {
    seq(|items|, k requires 0 <= k < |items| => items[k].content)
  }

  lemma ContentsConcat(a: seq<Item>, b: seq<Item>)
    ensures Contents(a + b) == Contents(a) + Contents(b)
  {
  }

  lemma {:induction false} TimesDoNotMatter(s: State, t: State, a: seq<Event>, b: seq<Event>, parser: Parser)
    requires SameButForTime(a, b) && s.(arrival := 0) == t.(arrival := 0)
    ensures Contents(Emit(s, a, parser)) == Contents(Emit(t, b, parser))
    decreases |a|
  {
    if a != [] {
      var s', t' := After(s, a[0], parser), After(t, b[0], parser);
      assert s'.(arrival := 0) == t'.(arrival := 0);
      TimesDoNotMatter(s', t', a[1..], b[1..], parser);
      var first, first' := Output(s, a[0], parser), Output(t, b[0], parser);
      assert Contents(first) == Contents(first');
      ContentsConcat(first, Emit(s', a[1..], parser));
      ContentsConcat(first', Emit(t', b[1..], parser));
    }
  }

  function Payload(messages: seq<Message>): (bytes: seq<Byte>) {
    if messages == [] then []
    else
      var last := messages[|messages| - 1];
      Payload(messages[..|messages| - 1]) + (if last.Chunk? then last.bytes else [])
  }

  ghost predicate LossFree(messages: seq<Message>) {
    forall k :: 0 <= k < |messages| ==> messages[k].Chunk? && !messages[k].lossBefore
  }

  lemma {:induction false} UnrollIsPayload(messages: seq<Message>)
    requires LossFree(messages)
    ensures SameButForTime(Unroll(messages), Cells(Payload(messages), 0))
  {
    if messages != [] {
      UnrollIsPayload(messages[..|messages| - 1]);
    }
  }

  // Two loss-free helpers that wrote the same bytes, in whatever chunks, give the same
  // records and reports, whether or not the stream then ends.
  lemma ChunksDoNotMatter(a: seq<Message>, b: seq<Message>, ended: bool, parser: Parser)
    requires LossFree(a) && LossFree(b) && Payload(a) == Payload(b)
    ensures var tail := if ended then [Eof] else [];
            Contents(Emit(START, Unroll(a) + tail, parser)) == Contents(Emit(START, Unroll(b) + tail, parser))
  {
    UnrollIsPayload(a);
    UnrollIsPayload(b);
    var tail := if ended then [Eof] else [];
    assert SameButForTime(Unroll(a) + tail, Unroll(b) + tail) by {
      assert SameButForTime(Unroll(a), Unroll(b)) by {
        forall k | 0 <= k < |Unroll(a)|
          ensures Unroll(a)[k].Cell? && Unroll(b)[k].Cell? && Unroll(a)[k].byte == Unroll(b)[k].byte
        {
          assert Cells(Payload(a), 0)[k].Cell?;
        }
      }
    }
    TimesDoNotMatter(START, START, Unroll(a) + tail, Unroll(b) + tail, parser);
  }
}
