/**
 The feed that frames a helper's output: a turn at a time, within budgets, retrying what
 its mailboxes refuse, it hands on exactly what the framing of the consumed stream yields.
 */
module ProcessJsonFeed {
  import opened Wrappers
  import opened Utf8
  import opened NativeRecord
  import opened RecordMeaning
  import opened NativeJson
  import opened Framing

  const TURN_BYTES := 16 * 1024
  const TURN_FRAMES := 4
  const TURN_MESSAGES := 4
  const STDERR_BYTES := 1024

  // What a raw mailbox delivers: no chunk is empty, as it accepts no empty bytes, and an end
  // comes last.
  ghost predicate Deliverable(tape: seq<Message>) {
    && (forall k :: 0 <= k < |tape| && tape[k].Chunk? ==> tape[k].bytes != [])
    && EndIsLast(tape)
  }

  type Tape = tape: seq<Message> | Deliverable(tape) witness []

  // The mailbox of raw output. `tape` is all it ever delivers; `queue` is what is still to
  // come of it, now or later, so a take may be refused at any time.
  class RawMailbox {
    ghost const tape: Tape
    var queue: seq<Message>
    ghost var taken: seq<Message>
    ghost var refusals: nat

    constructor (queue: seq<Message>)
      requires Deliverable(queue)
      ensures Valid() && tape == this.queue == queue && taken == [] && refusals == 0
    {
      this.queue, taken, refusals := queue, [], 0;
      tape := queue;
    }

    // Nothing is lost, made up or put in another place.
    ghost predicate Valid()
      reads this
    {
      taken + queue == tape
    }

    method Take() returns (message: Option<Message>)
      requires Valid()
      modifies this
      ensures Valid()
      ensures match message
              case None =>
                && queue == old(queue) && taken == old(taken)
                && refusals == old(refusals) + (if queue == [] then 0 else 1)
              case Some(m) =>
                && old(queue) == [m] + queue && taken == old(taken) + [m] && refusals == old(refusals)
                && (m.Chunk? ==> m.bytes != [])
    {
      message := None;
      if * {
        if queue != [] {
          message := Some(queue[0]);
          assert taken + [queue[0]] + queue[1..] == tape;
          assert tape[|taken|] == queue[0];
          taken, queue := taken + [queue[0]], queue[1..];
          return;
        }
      }
      if queue != [] {
        refusals := refusals + 1;
      }
    }
  }

  // The mailbox of publications: an offer is refused for now, or dealt with.
  class Publications {
    ghost var offered: seq<Item>
    ghost var refusals: nat

    constructor ()
      ensures offered == [] && refusals == 0
    {
      offered, refusals := [], 0;
    }

    method Offer(item: Item) returns (done: bool)
      modifies this
      ensures done ==> offered == old(offered) + [item] && refusals == old(refusals)
      ensures !done ==> offered == old(offered) && refusals == old(refusals) + 1
    {
      if * {
        refusals := refusals + 1;
        return false;
      }
      offered := offered + [item];
      return true;
    }

    // close and cancel, which contention may refuse.
    method Close() returns (done: bool)
      modifies `refusals
      ensures refusals == old(refusals) + (if done then 0 else 1)
    {
      if * {
        return true;
      }
      refusals := refusals + 1;
      return false;
    }
  }

  // The end has come.
  predicate Ended(messages: seq<Message>) {
    messages != [] && messages[|messages| - 1].End?
  }

  // A stream has ended, or something of it has come, or it was refused, or there is nothing
  // more of it.
  predicate Drains(ended: bool, before: nat, after: nat, refusals: nat, refusals': nat) {
    ended || after == 0 || after < before || refusals < refusals'
  }

  ghost predicate EndIsLast(messages: seq<Message>) {
    forall k :: 0 <= k < |messages| - 1 ==> messages[k].Chunk?
  }

  function Prefix(bytes: seq<Byte>, n: nat): (prefix: seq<Byte>) {
    if |bytes| <= n then bytes else bytes[..n]
  }

  lemma PrefixMore(bytes: seq<Byte>, more: seq<Byte>, n: nat)
    ensures |Prefix(bytes, n)| <= n
    ensures Prefix(bytes + more, n) == Prefix(bytes, n) + Prefix(more, n - |Prefix(bytes, n)|)
  {
  }

  lemma PayloadMore(messages: seq<Message>, m: Message)
    ensures Payload(messages + [m]) == if m.Chunk? then Payload(messages) + m.bytes else Payload(messages)
  {
    assert (messages + [m])[..|messages|] == messages;
  }

  class Feed {
    const schema: Schema
    const raw: RawMailbox
    const errors: RawMailbox
    const output: Publications
    const decoder: NativeJsonDecoder
    var input: Message
    var position: nat
    var frame: seq<Byte>
    var record: Item
    var stderrPrefix: seq<Byte>
    var now: int
    var frameArrival: int
    var malformed: nat
    var oversized: nat
    var clippedMetadata: nat
    var held: bool
    var staged: bool
    var drainingOversize: bool
    var rawLost: bool
    var stdoutEnd: bool
    var stderrEnd: bool
    var stopped: bool
    var closed: bool
    ghost const parser := ParserOf(schema)
    // The events of the raw stream that have been consumed.
    ghost var consumed: seq<Event>

    ghost function Framing(): (st: State)
      reads `frame, `drainingOversize, `rawLost, `frameArrival, `malformed, `oversized, `clippedMetadata
    {
      State(frame, drainingOversize, rawLost, frameArrival, malformed, oversized, clippedMetadata)
    }

    // What has been framed and not yet dealt with.
    ghost function Staged(): (items: seq<Item>)
      reads `staged, `record
    {
      if staged then [record] else []
    }

    // What is left of the message in hand.
    ghost function Rest(): (events: seq<Event>)
      reads `held, `input, `position
    {
      if held && input.Chunk? && position <= |input.bytes|
      then Cells(input.bytes[position..], input.arrival) else []
    }

    // The bytes consumed are those of the messages taken, short of the rest in hand.
    ghost predicate Tracks()
      reads `held, `input, `position, `consumed, `stdoutEnd, raw
    {
      && (held ==> input.Chunk? && position <= |input.bytes|)
      && consumed + Rest() == Unroll(raw.taken)
      && stdoutEnd == (Eof in consumed)
    }

    // The framing is that of the bytes consumed, and its items are those offered and the
    // one staged, in order.
    ghost predicate Framed()
      reads `frame, `drainingOversize, `rawLost, `frameArrival, `malformed, `oversized, `clippedMetadata
      reads `staged, `record, `consumed, output`offered
    {
      && Framing() == Drive(START, consumed, parser)
      && output.offered + Staged() == Emit(START, consumed, parser)
    }

    ghost predicate Working()
      reads `frame, `drainingOversize, `rawLost, `frameArrival, `malformed, `oversized, `clippedMetadata
      reads `staged, `record, `consumed, `held, `input, `position, `stdoutEnd, raw, output`offered
      reads decoder, decoder.values
    {
      decoder.Valid() && Tracks() && Framed()
    }

    // The diagnostic text is the beginning of what was taken of it.
    ghost predicate Diagnosed()
      reads `stderrPrefix, `stderrEnd, errors
    {
      errors.Valid() && stderrPrefix == Prefix(Payload(errors.taken), STDERR_BYTES) && stderrEnd == Ended(errors.taken)
    }

    ghost predicate Intact()
      reads `frame, `drainingOversize, `rawLost, `frameArrival, `malformed, `oversized, `clippedMetadata
      reads `staged, `record, `consumed, `held, `input, `position, `stdoutEnd, `stderrPrefix, `stderrEnd
      reads raw, errors, output`offered, decoder, decoder.values
    {
      raw != errors && raw.Valid() && Working() && Diagnosed()
    }

    ghost predicate Valid()
      reads this, raw, errors, output`offered, decoder, decoder.values
    {
      Intact() && (closed && !stopped ==> stdoutEnd && !held && !staged)
    }

    // All that the helper ever writes has been consumed.
    ghost predicate Exhausted()
      reads raw, `consumed
    {
      consumed == Unroll(raw.tape)
    }

    // Between turns a message in hand has bytes left.
    ghost predicate Settled()
      reads `held, `input, `position
    {
      held ==> input.Chunk? && position < |input.bytes|
    }

    constructor (schema: Schema, raw: RawMailbox, errors: RawMailbox)
      requires raw != errors && raw.Valid() && errors.Valid() && raw.taken == [] && errors.taken == []
      ensures Valid() && this.schema == schema && this.raw == raw && this.errors == errors
      ensures fresh(output) && fresh(decoder) && fresh(decoder.values) && output.offered == []
      ensures now == 0 && !held && !staged && !stopped && !closed && consumed == []
    {
      this.schema, this.raw, this.errors := schema, raw, errors;
      output := new Publications();
      decoder := new NativeJsonDecoder();
      input, position, record := End(false), 0, Item(Report(Lost), 0);
      frame, stderrPrefix, now, frameArrival := [], [], 0, 0;
      malformed, oversized, clippedMetadata := 0, 0, 0;
      held, staged, drainingOversize, rawLost := false, false, false, false;
      stdoutEnd, stderrEnd, stopped, closed := false, false, false, false;
      consumed := [];
    }

    // publish: hands on the staged item, unless the mailbox refuses it for now.
    method Publish() returns (done: bool)
      modifies output, `staged
      ensures done == !staged
      ensures output.offered + Staged() == old(output.offered + Staged())
      ensures !old(staged) ==> output.offered == old(output.offered)
      ensures |old(output.offered)| <= |output.offered|
      ensures output.refusals == old(output.refusals) + (if done then 0 else 1)
    {
      if !staged {
        return true;
      }
      done := output.Offer(record);
      if done {
        staged := false;
      }
    }

    method Notice(reason: Reason)
      modifies `record, `staged
      ensures staged && record == Item(Report(reason), frameArrival)
    {
      record := Item(Report(reason), frameArrival);
      staged := true;
    }

    // What the decoder says of a line, and whether it cut values off.
    method Judged() returns (result: Result, cut: bool)
      requires decoder.Valid()
      modifies decoder, decoder.values
      ensures decoder.Valid() && result == Decoding(frame, schema)
      ensures result.Published? ==> cut == WasClipped(frame, schema)
    {
      result := decoder.Decode(frame, schema);
      cut := decoder.metadataClipped;
    }

    // A complete line within the size bound.
    method Decode()
      requires decoder.Valid() && !staged
      modifies `record, `staged, `malformed, `clippedMetadata, decoder, decoder.values
      ensures decoder.Valid() && staged && record == Item(parser.parse(frame), frameArrival)
      ensures malformed == old(malformed) + (if parser.parse(frame).Report? then 1 else 0)
      ensures clippedMetadata == old(clippedMetadata) +
                                 (if parser.parse(frame).Entry? && parser.clips(frame) then 1 else 0)
    {
      ParserApplies(frame, schema);
      var result, cut := Judged();
      match result {
        case Published(entry) =>
          record, staged := Item(Entry(entry), frameArrival), true;
          if cut {
            clippedMetadata := clippedMetadata + 1;
          }
        case Invalid =>
          malformed := malformed + 1;
          Notice(Malformed);
        case Limit =>
          malformed := malformed + 1;
          Notice(BeyondLimits);
      }
    }

    // What a newline counts and stages.
    method Count()
      requires decoder.Valid() && !staged
      modifies `record, `staged, `malformed, `oversized, `clippedMetadata, decoder, decoder.values
      ensures decoder.Valid()
      ensures Framing() == Counted(old(Framing()), parser)
      ensures Staged() == FinishedItems(old(Framing()), parser)
    {
      if drainingOversize {
        CountOversize();
      } else if frame != [] {
        Decode();
      }
    }

    method CountOversize()
      requires drainingOversize && !staged
      modifies `record, `staged, `oversized
      ensures Framing() == Counted(old(Framing()), parser)
      ensures Staged() == FinishedItems(old(Framing()), parser)
    {
      if !rawLost {
        oversized := oversized + 1;
        Notice(Oversized);
      }
    }

    // finish_frame: what a newline does.
    method FinishFrame()
      requires decoder.Valid() && !staged
      modifies `frame, `record, `staged, `drainingOversize, `rawLost
      modifies `malformed, `oversized, `clippedMetadata, decoder, decoder.values
      ensures decoder.Valid()
      ensures Framing() == Finished(old(Framing()), parser)
      ensures Staged() == FinishedItems(old(Framing()), parser)
    {
      Count();
      frame, drainingOversize, rawLost := [], false, false;
    }

    // What a byte does to the framing.
    method Frame(b: Byte, arrival: int) returns (newline: bool)
      requires decoder.Valid() && !staged
      modifies `frameArrival, `frame, `record, `staged, `drainingOversize, `rawLost
      modifies `malformed, `oversized, `clippedMetadata, decoder, decoder.values
      ensures decoder.Valid() && newline == (b == NEWLINE)
      ensures Framing() == After(old(Framing()), Cell(b, arrival), parser)
      ensures Staged() == Output(old(Framing()), Cell(b, arrival), parser)
    {
      if frame == [] && !drainingOversize {
        frameArrival := arrival;
      }
      newline := b == NEWLINE;
      if newline {
        assert Framing() == Begun(old(Framing()), arrival);
        FinishFrame();
      } else if !drainingOversize {
        if |frame| == BATCH_BYTES {
          frame, drainingOversize := [], true;
        } else {
          frame := frame + [b];
        }
      }
    }

    // An event is over: its items are staged, and the stream so far includes it.
    ghost method Record(e: Event, before: State)
      requires before == Drive(START, consumed, parser) && Framing() == After(before, e, parser)
      requires output.offered == Emit(START, consumed, parser) && Staged() == Output(before, e, parser)
      modifies `consumed
      ensures consumed == old(consumed) + [e] && Framed()
    {
      RunOne(START, consumed, e, parser);
      consumed := consumed + [e];
    }

    method FrameNext(b: Byte, arrival: int) returns (newline: bool)
      requires decoder.Valid() && Framed() && !staged
      modifies `frameArrival, `frame, `record, `staged, `drainingOversize, `rawLost
      modifies `malformed, `oversized, `clippedMetadata, `consumed, decoder, decoder.values
      ensures decoder.Valid() && Framed() && consumed == old(consumed) + [Cell(b, arrival)]
      ensures !newline ==> !staged
    {
      ghost var before := Framing();
      newline := Frame(b, arrival);
      Record(Cell(b, arrival), before);
    }

    // One byte in hand goes by.
    method Byte() returns (newline: bool)
      requires Working() && held && position < |input.bytes| && !staged
      modifies `position, `frameArrival, `frame, `record, `staged, `drainingOversize, `rawLost
      modifies `malformed, `oversized, `clippedMetadata, `consumed, decoder, decoder.values
      ensures Working() && position == old(position) + 1
      ensures |consumed| == |old(consumed)| + 1 && (!newline ==> !staged)
    {
      TracksOn();
      newline := FrameNext(input.bytes[position], input.arrival);
      Pass();
    }

    lemma TracksOn()
      requires Tracks() && held && position < |input.bytes|
      ensures TracksNext(consumed + [Cell(input.bytes[position], input.arrival)])
    {
      CellsFrom(input, position);
      Append(consumed, Cell(input.bytes[position], input.arrival), Cells(input.bytes[position + 1..], input.arrival));
    }

    // The same once the next byte in hand has been consumed too.
    ghost predicate TracksNext(all: seq<Event>)
      reads `held, `input, `position, `stdoutEnd, raw
    {
      && held && input.Chunk? && position < |input.bytes|
      && all + Cells(input.bytes[position + 1..], input.arrival) == Unroll(raw.taken)
      && stdoutEnd == (Eof in all)
    }

    // The byte just consumed is no longer in hand.
    method Pass()
      requires TracksNext(consumed)
      modifies `position
      ensures Tracks() && position == old(position) + 1
    {
      position := position + 1;
    }

    // The body of the loop over the bytes in hand.
    method ByteTurn() returns (newline: bool)
      requires Working() && held && position < |input.bytes| && !staged
      modifies `position, `frameArrival, `frame, `record, `staged, `drainingOversize, `rawLost
      modifies `malformed, `oversized, `clippedMetadata, `consumed, output, decoder, decoder.values
      ensures Working() && position == old(position) + 1 && |consumed| == |old(consumed)| + 1
      ensures |old(output.offered)| <= |output.offered|
      ensures |output.offered + Staged()| <= |old(output.offered)| + (if newline then 1 else 0)
      ensures staged ==> newline && output.refusals > old(output.refusals)
      ensures output.refusals >= old(output.refusals)
    {
      newline := Byte();
      if newline {
        var done := Publish();
      }
    }

    // The loop over the bytes in hand, within what the turn has left.
    method Bytes(bytes: nat, frames: nat) returns (bytes': nat, frames': nat)
      requires Working() && held && !staged && bytes < TURN_BYTES && frames < TURN_FRAMES
      modifies `position, `frameArrival, `frame, `record, `staged, `drainingOversize, `rawLost
      modifies `malformed, `oversized, `clippedMetadata, `consumed, output, decoder, decoder.values
      ensures Working()
      ensures bytes <= bytes' <= TURN_BYTES && frames <= frames' <= TURN_FRAMES
      ensures |consumed| == |old(consumed)| + bytes' - bytes
      ensures |old(output.offered)| <= |output.offered|
      ensures |output.offered + Staged()| <= |old(output.offered)| + frames' - frames
      ensures bytes' == bytes ==> position == |input.bytes|
      ensures output.refusals >= old(output.refusals)
    {
      bytes', frames' := bytes, frames;
      while position < |input.bytes| && bytes' < TURN_BYTES && frames' < TURN_FRAMES && !staged
        invariant Working()
        invariant bytes <= bytes' <= TURN_BYTES && frames <= frames' <= TURN_FRAMES
        invariant |consumed| == |old(consumed)| + bytes' - bytes
        invariant bytes' == bytes ==> frames' == frames && !staged
        invariant |old(output.offered)| <= |output.offered|
        invariant |output.offered + Staged()| <= |old(output.offered)| + frames' - frames
        invariant output.refusals >= old(output.refusals)
      {
        var newline := ByteTurn();
        bytes', frames' := bytes' + 1, frames' + (if newline then 1 else 0);
      }
    }

    // The stream has ended: a line that it cuts short is reported.
    method Finish()
      requires decoder.Valid() && Framed() && !staged
      modifies `frame, `record, `staged, `drainingOversize, `malformed, `stdoutEnd, `consumed
      ensures Framed() && stdoutEnd && consumed == old(consumed) + [Eof]
    {
      ghost var before := Framing();
      stdoutEnd := true;
      if frame != [] || drainingOversize {
        malformed := malformed + 1;
        Notice(Incomplete);
        frame, drainingOversize := [], false;
      }
      Record(Eof, before);
    }

    // Bytes were lost before the message in hand: what there is of a line is void.
    method Lose()
      requires Framed() && !staged
      modifies `frame, `record, `staged, `drainingOversize, `rawLost, `malformed, `consumed
      ensures Framed() && consumed == old(consumed) + [Gap]
    {
      ghost var before := Framing();
      frame, drainingOversize, rawLost := [], true, true;
      malformed := malformed + 1;
      Notice(Lost);
      Record(Gap, before);
    }

    // The bytes of a new message come to hand.
    method Hold() returns (more: bool)
      requires decoder.Valid() && Framed() && !staged && input.Chunk? && input.bytes != []
      requires consumed + ((if input.lossBefore then [Gap] else []) + Cells(input.bytes, input.arrival)) ==
               Unroll(raw.taken)
      requires stdoutEnd == (Eof in consumed)
      modifies `frame, `record, `staged, `drainingOversize, `rawLost, `malformed, `consumed, `position, `held
      ensures Working() && held && position == 0
      ensures if more then !staged && consumed == old(consumed) else |consumed| == |old(consumed)| + 1
    {
      position, held := 0, true;
      assert input.bytes[0..] == input.bytes;
      more := !input.lossBefore;
      if input.lossBefore {
        Append(consumed, Gap, Rest());
        Lose();
      }
    }

    // What a message brings, given that the rest of the stream up to it is consumed.
    method Admit() returns (more: bool)
      requires decoder.Valid() && Framed() && !held && !staged && (input.Chunk? ==> input.bytes != [])
      requires consumed + (if input.End? then [Eof]
                           else (if input.lossBefore then [Gap] else []) + Cells(input.bytes, input.arrival)) ==
               Unroll(raw.taken)
      requires stdoutEnd == (Eof in consumed)
      modifies `frame, `record, `staged, `drainingOversize, `rawLost, `malformed, `stdoutEnd, `consumed
      modifies `position, `held
      ensures Working() && Settled()
      ensures if more then held && !staged && consumed == old(consumed) else |consumed| == |old(consumed)| + 1
    {
      if input.End? {
        Finish();
        assert consumed + [] == consumed;
        more := false;
      } else {
        more := Hold();
      }
    }

    // The next message is fetched, if there is one for now.
    method Fetch() returns (taken: bool)
      requires raw.Valid() && Working() && !held
      modifies `input, raw
      ensures raw.Valid() && Framed() && (!taken ==> Working())
      ensures if taken then old(raw.queue) == [input] + raw.queue && raw.taken == old(raw.taken) + [input]
              else raw.queue == old(raw.queue) && raw.taken == old(raw.taken)
      ensures raw.refusals == old(raw.refusals) + (if taken || raw.queue == [] then 0 else 1)
      ensures taken ==> (input.Chunk? ==> input.bytes != []) &&
                        consumed +
                        (if input.End? then [Eof]
                         else (if input.lossBefore then [Gap] else []) + Cells(input.bytes, input.arrival)) ==
                        Unroll(raw.taken)
    {
      assert consumed + [] == consumed;
      var message := raw.Take();
      taken := message.Some?;
      if taken {
        input := message.value;
        UnrollMore(old(raw.taken), input);
      }
    }

    // Takes the next message into the hand, unless there is none or it ends the turn.
    method Next() returns (more: bool, taken: bool)
      requires raw.Valid() && Working() && !held && !staged
      modifies `frame, `record, `staged, `drainingOversize, `rawLost, `malformed, `stdoutEnd, `consumed
      modifies `input, `position, `held, raw
      ensures raw.Valid() && Working() && Settled()
      ensures raw.refusals >= old(raw.refusals) && |raw.taken| == |old(raw.taken)| + (if taken then 1 else 0)
      ensures if taken then old(raw.queue) == [input] + raw.queue && raw.taken == old(raw.taken) + [input]
              else raw.queue == old(raw.queue) && raw.taken == old(raw.taken)
      ensures more ==> taken && held && !staged && consumed == old(consumed)
      ensures !more && taken ==> |consumed| == |old(consumed)| + 1
      ensures !taken ==> !more && consumed == old(consumed) && !staged
      ensures !taken ==> raw.refusals > old(raw.refusals) || Exhausted()
    {
      more := false;
      taken := Fetch();
      if taken {
        more := Admit();
      } else {
        AllConsumed();
      }
    }

    // With nothing queued and nothing in hand, all has been consumed.
    lemma AllConsumed()
      requires raw.Valid() && Working() && !held
      ensures raw.queue == [] ==> Exhausted()
    {
      assert consumed + [] == consumed && raw.taken + [] == raw.taken;
    }

    // A message whose bytes have all gone by is let go of.
    method Release()
      requires Working() && held
      modifies `held
      ensures Working() && Settled()
    {
      if position == |input.bytes| {
        assert Rest() == [];
        held := false;
      }
    }

    // The body of the loop over messages.
    method Round(bytes: nat, frames: nat) returns (more: bool, taken: bool, bytes': nat, frames': nat)
      requires raw.Valid() && Working() && Settled() && !staged && bytes < TURN_BYTES && frames < TURN_FRAMES
      modifies `frame, `record, `staged, `drainingOversize, `rawLost, `stdoutEnd, `input, `position, `held
      modifies `frameArrival, `malformed, `oversized, `clippedMetadata, `consumed, raw, output, decoder, decoder.values
      ensures raw.Valid() && Working() && Settled() && (more ==> !staged && (taken || bytes < bytes'))
      ensures bytes <= bytes' <= TURN_BYTES && frames <= frames' <= TURN_FRAMES
      ensures |raw.taken| == |old(raw.taken)| + (if taken then 1 else 0)
      ensures 0 <= |consumed| - |old(consumed)| <= bytes' - bytes + (if more then 0 else 1)
      ensures |old(output.offered)| <= |output.offered|
      ensures |output.offered + Staged()| <= |old(output.offered)| + frames' - frames + (if more then 0 else 1)
      ensures |old(consumed)| < |consumed| || old(raw.refusals) < raw.refusals || Exhausted()
      ensures raw.refusals >= old(raw.refusals) && output.refusals >= old(output.refusals)
    {
      taken, bytes', frames' := false, bytes, frames;
      if !held {
        more, taken := Next();
        if !more {
          return;
        }
      }
      bytes', frames' := Bytes(bytes, frames);
      Release();
      more := !staged;
    }

    // The loop over messages, within the budgets of a turn.
    method Rounds()
      requires raw.Valid() && Working() && Settled() && !staged
      modifies `frame, `record, `staged, `drainingOversize, `rawLost, `stdoutEnd, `input, `position, `held
      modifies `frameArrival, `malformed, `oversized, `clippedMetadata, `consumed, raw, output, decoder, decoder.values
      ensures raw.Valid() && Working() && Settled()
      ensures |old(raw.taken)| <= |raw.taken| <= |old(raw.taken)| + TURN_MESSAGES
      ensures |old(consumed)| <= |consumed| <= |old(consumed)| + TURN_BYTES + 1
      ensures |old(output.offered)| <= |output.offered|
      ensures |output.offered + Staged()| <= |old(output.offered)| + TURN_FRAMES + 1
      ensures |old(consumed)| < |consumed| || old(raw.refusals) < raw.refusals || Exhausted()
      ensures raw.refusals >= old(raw.refusals) && output.refusals >= old(output.refusals)
    {
      var bytes, frames, messages, more := 0, 0, 0, true;
      while bytes < TURN_BYTES && frames < TURN_FRAMES && messages < TURN_MESSAGES && more
        invariant raw.Valid() && Working() && Settled() && (more ==> !staged)
        invariant bytes <= TURN_BYTES && frames <= TURN_FRAMES && messages <= TURN_MESSAGES
        invariant |raw.taken| == |old(raw.taken)| + messages
        invariant |old(consumed)| <= |consumed| <= |old(consumed)| + bytes + (if more then 0 else 1)
        invariant |old(output.offered)| <= |output.offered|
        invariant |output.offered + Staged()| <= |old(output.offered)| + frames + (if more then 0 else 1)
        invariant (bytes == frames == messages == 0 && more) ||
                  |old(consumed)| < |consumed| || old(raw.refusals) < raw.refusals || Exhausted()
        invariant raw.refusals >= old(raw.refusals) && output.refusals >= old(output.refusals)
        decreases more, TURN_MESSAGES - messages, TURN_BYTES - bytes
      {
        var taken;
        more, taken, bytes, frames := Round(bytes, frames);
        messages := messages + (if taken then 1 else 0);
      }
    }

    // The reading of raw output in a turn: what was taken, consumed and handed on only grows.
    method Read()
      requires raw.Valid() && Working() && Settled() && !staged
      modifies `frame, `record, `staged, `drainingOversize, `rawLost, `stdoutEnd, `input, `position, `held
      modifies `frameArrival, `malformed, `oversized, `clippedMetadata, `consumed, raw, output, decoder, decoder.values
      ensures raw.Valid() && Working() && Settled()
      ensures |old(raw.taken)| <= |raw.taken| <= |old(raw.taken)| + TURN_MESSAGES
      ensures |old(consumed)| <= |consumed| <= |old(consumed)| + TURN_BYTES + 1
      ensures |old(output.offered)| <= |output.offered|
      ensures |output.offered + Staged()| <= |old(output.offered)| + TURN_FRAMES + 1
      ensures |old(consumed)| < |consumed| || old(raw.refusals) < raw.refusals || Exhausted()
      ensures raw.refusals >= old(raw.refusals) && output.refusals >= old(output.refusals)
      ensures old(raw.taken) <= raw.taken && old(consumed) <= consumed && old(output.offered) <= output.offered
    {
      ghost var taken, consumed0, offered := raw.taken, consumed, output.offered;
      IsOnTape();
      Rounds();
      IsOnTape();
      OnTapeGrows(raw.tape, parser, taken, consumed0, offered, raw.taken, consumed, output.offered);
    }

    // A turn at the diagnostic stream, of which the first bytes are kept.
    method DrainErrors()
      requires Diagnosed()
      modifies `stderrEnd, `stderrPrefix, errors
      ensures Diagnosed()
      ensures Drains(stderrEnd, old(|errors.queue|), |errors.queue|, old(errors.refusals), errors.refusals)
      ensures |errors.queue| <= |old(errors.queue)| && old(errors.refusals) <= errors.refusals
    {
      if stderrEnd {
        return;
      }
      var message := errors.Take();
      if message.Some? {
        Diagnose(old(errors.taken), message.value);
      }
    }

    // A message of the diagnostic stream, behind those taken before.
    method Diagnose(ghost taken: seq<Message>, message: Message)
      requires stderrPrefix == Prefix(Payload(taken), STDERR_BYTES) && !stderrEnd
      modifies `stderrEnd, `stderrPrefix
      ensures stderrPrefix == Prefix(Payload(taken + [message]), STDERR_BYTES) && stderrEnd == message.End?
    {
      PayloadMore(taken, message);
      if message.End? {
        stderrEnd := true;
      } else {
        PrefixMore(Payload(taken), message.bytes, STDERR_BYTES);
        stderrPrefix := stderrPrefix + Prefix(message.bytes, STDERR_BYTES - |stderrPrefix|);
      }
    }

    // The reading half of a turn.
    method Pump()
      requires Intact() && Settled() && !staged
      modifies `frame, `record, `staged, `drainingOversize, `rawLost, `stdoutEnd, `input, `position, `held
      modifies `frameArrival, `malformed, `oversized, `clippedMetadata, `consumed, raw, output, decoder, decoder.values
      modifies `stderrEnd, `stderrPrefix, errors
      ensures Intact() && Settled()
      ensures |old(raw.taken)| <= |raw.taken| <= |old(raw.taken)| + TURN_MESSAGES
      ensures |old(consumed)| <= |consumed| <= |old(consumed)| + TURN_BYTES + 1
      ensures |old(output.offered)| <= |output.offered|
      ensures |output.offered + Staged()| <= |old(output.offered)| + TURN_FRAMES + 1
      ensures |old(consumed)| < |consumed| || old(raw.refusals) < raw.refusals || Exhausted()
      ensures raw.refusals >= old(raw.refusals) && output.refusals >= old(output.refusals)
      ensures Drains(stderrEnd, old(|errors.queue|), |errors.queue|, old(errors.refusals), errors.refusals)
      ensures |errors.queue| <= |old(errors.queue)| && old(errors.refusals) <= errors.refusals
    {
      DrainErrors();
      Read();
    }

    // Nothing more will come, and all that came has been framed.
    predicate Drained(terminal: bool)
      reads `stdoutEnd, `stderrEnd, `held
    {
      terminal && stdoutEnd && stderrEnd && !held
    }

    // The output is closed, unless the mailbox refuses it for now.
    method CloseOutput()
      requires Intact() && (stopped || (stdoutEnd && !held && !staged))
      modifies `closed, output`refusals
      ensures Valid() && output.refusals == old(output.refusals) + (if closed then 0 else 1)
    {
      closed := output.Close();
    }

    // The end of a turn.
    method Wind(terminal: bool)
      requires Valid() && Settled() && !closed
      modifies `staged, `closed, output
      ensures Valid() && Settled() && output.refusals >= old(output.refusals)
      ensures output.offered + Staged() == old(output.offered + Staged()) && |old(output.offered)| <= |output.offered|
      ensures output.refusals == old(output.refusals) ==> !staged && closed == Drained(terminal)
    {
      var done := Publish();
      if done && Drained(terminal) {
        CloseOutput();
      }
    }

    // A turn of a feed that is neither stopped nor closed.
    method Work(terminal: bool)
      requires Valid() && Settled() && !closed
      modifies `frame, `record, `staged, `drainingOversize, `rawLost, `stdoutEnd, `input, `position, `held
      modifies `frameArrival, `malformed, `oversized, `clippedMetadata, `consumed, raw, output, decoder, decoder.values
      modifies `stderrEnd, `stderrPrefix, `closed, errors
      ensures Valid() && Settled()
      ensures |old(raw.taken)| <= |raw.taken| <= |old(raw.taken)| + TURN_MESSAGES
      ensures |old(consumed)| <= |consumed| <= |old(consumed)| + TURN_BYTES + 1
      ensures |old(output.offered)| <= |output.offered|
      ensures |output.offered + Staged()| <= |old(output.offered + Staged())| + TURN_FRAMES + 1
      ensures |old(consumed)| < |consumed| || old(raw.refusals) < raw.refusals || Exhausted() ||
              old(output.refusals) < output.refusals
      ensures old(output.refusals) < output.refusals || (!staged && closed == Drained(terminal))
      ensures || old(output.refusals) < output.refusals
              || Drains(stderrEnd, old(|errors.queue|), |errors.queue|, old(errors.refusals), errors.refusals)
      ensures raw.refusals >= old(raw.refusals) && output.refusals >= old(output.refusals)
      ensures |errors.queue| <= |old(errors.queue)| && old(errors.refusals) <= errors.refusals
    {
      var done := Publish();
      if done {
        assert Valid() && output.offered + Staged() == old(output.offered + Staged());
        PumpAndWind(terminal);
      }
    }

    method PumpAndWind(terminal: bool)
      requires Valid() && Settled() && !staged && !closed
      modifies `frame, `record, `staged, `drainingOversize, `rawLost, `stdoutEnd, `input, `position, `held
      modifies `frameArrival, `malformed, `oversized, `clippedMetadata, `consumed, raw, output, decoder, decoder.values
      modifies `stderrEnd, `stderrPrefix, `closed, errors
      ensures Valid() && Settled()
      ensures |old(raw.taken)| <= |raw.taken| <= |old(raw.taken)| + TURN_MESSAGES
      ensures |old(consumed)| <= |consumed| <= |old(consumed)| + TURN_BYTES + 1
      ensures |old(output.offered)| <= |output.offered|
      ensures |output.offered + Staged()| <= |old(output.offered)| + TURN_FRAMES + 1
      ensures |old(consumed)| < |consumed| || old(raw.refusals) < raw.refusals || Exhausted()
      ensures output.refusals >= old(output.refusals)
      ensures old(output.refusals) < output.refusals || (!staged && closed == Drained(terminal))
      ensures raw.refusals >= old(raw.refusals)
      ensures Drains(stderrEnd, old(|errors.queue|), |errors.queue|, old(errors.refusals), errors.refusals)
      ensures |errors.queue| <= |old(errors.queue)| && old(errors.refusals) <= errors.refusals
    {
      Pump();
      Wind(terminal);
    }

    // step: one turn. Whatever is refused, the stream consumed so far has been framed and
    // handed on in order; a turn stays within its budgets; it makes progress unless
    // a mailbox refuses; and an unstopped feed closes only when all has been handed on.
    method Step(now: int, terminal: bool)
      requires Valid() && Settled()
      modifies this, raw, errors, output, decoder, decoder.values
      ensures Valid() && Settled() && stopped == old(stopped)
      ensures this.now == if old(Idle(now)) then old(this.now) else now
      ensures |old(raw.taken)| <= |raw.taken| <= |old(raw.taken)| + 4
      ensures |old(consumed)| <= |consumed| <= |old(consumed)| + 0x4000 + 1
      ensures |old(output.offered)| <= |output.offered|
      ensures |output.offered + Staged()| <= |old(output.offered + Staged())| + 4 + 1
      ensures if old(Idle(now) || stopped) then consumed == old(consumed) && output.offered == old(output.offered)
              else |old(consumed)| < |consumed| || Exhausted() ||
                   old(raw.refusals) < raw.refusals || old(output.refusals) < output.refusals
      ensures !old(Idle(now)) ==>
        || old(output.refusals) < output.refusals
        || (if stopped then closed else !staged && closed == (terminal && stdoutEnd && stderrEnd && !held))
      ensures raw.taken + raw.queue == old(raw.taken + raw.queue) == raw.tape
      ensures old(raw.taken) <= raw.taken && old(consumed) <= consumed && old(output.offered) <= output.offered
      ensures || old(Idle(now) || stopped) || old(output.refusals) < output.refusals
              || Drains(stderrEnd, old(|errors.queue|), |errors.queue|, old(errors.refusals), errors.refusals)
      ensures raw.refusals >= old(raw.refusals) && output.refusals >= old(output.refusals)
      ensures |errors.queue| <= |old(errors.queue)| && old(errors.refusals) <= errors.refusals
    {
      ghost var taken, consumed0, offered := raw.taken, consumed, output.offered;
      IsOnTape();
      if !Idle(now) {
        this.now := now;
        Turn(terminal);
      }
      IsOnTape();
      OnTapeGrows(raw.tape, parser, taken, consumed0, offered, raw.taken, consumed, output.offered);
    }

    // A turn of a feed that is not closed.
    method Turn(terminal: bool)
      requires Valid() && Settled() && !closed
      modifies `frame, `record, `staged, `drainingOversize, `rawLost, `stdoutEnd, `input, `position, `held
      modifies `frameArrival, `malformed, `oversized, `clippedMetadata, `consumed, raw, output, decoder, decoder.values
      modifies `stderrEnd, `stderrPrefix, `closed, errors
      ensures Valid() && Settled()
      ensures |old(raw.taken)| <= |raw.taken| <= |old(raw.taken)| + TURN_MESSAGES
      ensures |old(consumed)| <= |consumed| <= |old(consumed)| + TURN_BYTES + 1
      ensures |old(output.offered)| <= |output.offered|
      ensures |output.offered + Staged()| <= |old(output.offered + Staged())| + TURN_FRAMES + 1
      ensures if stopped then consumed == old(consumed) && output.offered == old(output.offered)
              else |old(consumed)| < |consumed| || Exhausted() ||
                   old(raw.refusals) < raw.refusals || old(output.refusals) < output.refusals
      ensures old(output.refusals) < output.refusals ||
              (if stopped then closed else !staged && closed == Drained(terminal))
      ensures || stopped || old(output.refusals) < output.refusals
              || Drains(stderrEnd, old(|errors.queue|), |errors.queue|, old(errors.refusals), errors.refusals)
      ensures raw.refusals >= old(raw.refusals) && output.refusals >= old(output.refusals)
      ensures |errors.queue| <= |old(errors.queue)| && old(errors.refusals) <= errors.refusals
    {
      if stopped {
        CloseOutput();
      } else {
        Work(terminal);
      }
    }

    // Turns that do nothing: in the past, or after the end.
    predicate Idle(now: int)
      reads this
    {
      now < this.now || now < 0 || closed
    }

    // stop: nothing is handed on from here.
    method Stop(now: int)
      requires Valid()
      modifies `stopped, `closed, output`refusals
      ensures Valid() && stopped && (closed || output.refusals > old(output.refusals))
    {
      stopped := true;
      CloseOutput();
    }

    // A turn, or the order to stop.
    method Do(move: Move)
      requires Valid() && Settled()
      modifies this, raw, errors, output, decoder, decoder.values
      ensures Valid() && Settled() && (stopped ==> old(stopped) || move.Halt?)
      ensures raw.taken + raw.queue == old(raw.taken + raw.queue)
      ensures old(raw.taken) <= raw.taken && old(consumed) <= consumed && old(output.offered) <= output.offered
    {
      match move {
        case Turn(now, terminal) => Step(now, terminal);
        case Halt(now) => Stop(now);
      }
    }

    // One move after the other: `history` has what was handed on before each, and at last.
    method Follow(moves: seq<Move>) returns (ghost history: seq<seq<Item>>)
      requires Valid() && Settled()
      modifies this, raw, errors, output, decoder, decoder.values
      ensures Valid() && Settled() && (stopped ==> old(stopped) || exists k :: 0 <= k < |moves| && moves[k].Halt?)
      ensures |history| == |moves| + 1 && history[0] == old(output.offered) && history[|moves|] == output.offered
      ensures Grows(history)
    {
      history := [output.offered];
      for i := 0 to |moves|
        invariant Valid() && Settled()
        invariant stopped ==> old(stopped) || exists k :: 0 <= k < i && moves[k].Halt?
        invariant |history| == i + 1 && history[0] == old(output.offered) && history[i] == output.offered
        invariant Grows(history)
      {
        Do(moves[i]);
        GrowsOn(history, output.offered);
        history := history + [output.offered];
      }
    }

    // How many events and diagnostic messages are still to come.
    ghost function Remaining(): (count: int)
      reads raw, errors, `consumed
    {
      |Unroll(raw.tape)| - |consumed| + |errors.queue|
    }

    // How often a mailbox has refused.
    ghost function Hindrances(): (count: nat)
      reads raw`refusals, errors`refusals, output`refusals
    {
      raw.refusals + errors.refusals + output.refusals
    }

    // When both streams have come to their ends, the feed knows.
    lemma EndsAreKnown()
      requires Valid() && Settled() && Ended(raw.tape) && Ended(errors.tape)
      ensures Exhausted() ==> stdoutEnd && !held
      ensures errors.queue == [] ==> stderrEnd
      ensures |consumed| <= |Unroll(raw.tape)|
    {
      IsOnTape();
      if Exhausted() {
        UnrollPrefix(raw.taken, raw.tape);
        assert |Rest()| == 0;
        assert Unroll(raw.tape)[|Unroll(raw.tape)| - 1] == Eof;
      }
      assert errors.queue == [] ==> errors.taken == errors.tape;
    }

    // A turn once the process is terminal: the feed closes, or something comes of a stream, or
    // a mailbox refuses.
    method FinalTurn(now: int)
      requires Valid() && Settled() && !stopped && !Idle(now) && Ended(raw.tape) && Ended(errors.tape)
      modifies this, raw, errors, output, decoder, decoder.values
      ensures Valid() && Settled() && !stopped && this.now == now
      ensures closed || Remaining() + old(Hindrances()) < old(Remaining()) + Hindrances()
    {
      Step(now, true);
      EndsAreKnown();
    }

    // Once the process is terminal, a feed whose streams end closes of itself: as long as it
    // has not, its turns are no more than what was still to come, and refusals, together.
    method FinalTurns(times: seq<int>)
      requires Valid() && Settled() && !stopped && Ended(raw.tape) && Ended(errors.tape)
      requires times != [] ==> 0 <= now <= times[0]
      requires forall j, k :: 0 <= j < k < |times| ==> times[j] <= times[k]
      modifies this, raw, errors, output, decoder, decoder.values
      ensures Valid() && Settled() && !stopped
      ensures closed || |times| + old(Hindrances()) <= old(Remaining()) + Hindrances()
    {
      EndsAreKnown();
      for i := 0 to |times|
        invariant Valid() && Settled() && !stopped
        invariant i < |times| ==> 0 <= now <= times[i]
        invariant closed || (i + Remaining() + old(Hindrances()) <= old(Remaining()) + Hindrances() && 0 <= Remaining())
      {
        if !closed {
          FinalTurn(times[i]);
          EndsAreKnown();
        }
      }
    }

    // A feed without a deadline has nothing left to do for now: all that it has taken is
    // consumed, and all that it framed is handed on.
    method NextDeadline(terminal: bool, pending: bool) returns (again: bool)
      requires Valid()
      ensures closed ==> !again
      ensures stopped && !closed ==> again
      ensures !again && !closed ==>
        && !stopped && consumed == Unroll(raw.taken) && output.offered == Emit(START, Unroll(raw.taken), parser)
        && !pending && !(terminal && stdoutEnd && stderrEnd)
    {
      again := !closed && (stopped || held || staged || pending || (terminal && stdoutEnd && stderrEnd));
      assert consumed + [] == consumed;
      assert output.offered + [] == output.offered;
    }

    // What was taken, consumed and handed on begins the tape, its events and their items.
    lemma IsOnTape()
      requires raw.Valid() && Working()
      ensures OnTape(raw.tape, parser, raw.taken, consumed, output.offered)
    {
      UnrollPrefix(raw.taken, raw.tape);
      assert Unroll(raw.taken)[..|consumed|] == consumed;
      assert Emit(START, consumed, parser)[..|output.offered|] == output.offered;
    }

    // At every moment, what has been handed on, with what is staged, is the one pass over
    // the stream consumed.
    lemma HandsOnOnePass()
      requires Valid()
      ensures output.offered + Staged() == OnePass(consumed, 0, parser)
    {
      ConsumedEndsOnce();
      FreshIsOnePass(START, consumed, parser);
    }

    lemma ConsumedEndsOnce()
      requires Valid()
      ensures EndsOnce(consumed)
    {
      assert forall k :: 0 <= k < |raw.taken| ==> raw.taken[k] == raw.tape[k];
      UnrollEndsOnce(raw.taken);
      assert consumed == Unroll(raw.taken)[..|consumed|];
    }

    // When an unstopped feed is closed, it has handed on the one pass over the whole
    // stream that its helper ever delivered.
    lemma ClosedMeansComplete()
      requires Valid() && closed && !stopped
      ensures raw.taken == raw.tape && consumed == Unroll(raw.tape)
      ensures output.offered == OnePass(Unroll(raw.tape), 0, parser)
    {
      HandsOnOnePass();
      assert consumed + [] == consumed && output.offered + [] == output.offered;
      EofIsEnd(raw.taken);
      var k :| 0 <= k < |raw.taken| && raw.taken[k].End?;
      assert raw.tape[k].End?;
    }

    // It has then reported every loss that its helper's messages carry, once, unless the
    // end carries one.
    lemma ClosedMeansReported()
      requires Valid() && closed && !stopped
      ensures Tally(output.offered, Lost) == LossesBeforeBytes(raw.tape)
      ensures Tally(output.offered, Lost) == Losses(raw.tape) <==> !EndsWithLoss(raw.tape)
    {
      ClosedMeansComplete();
      ParserIsFaithful(schema);
      LossesReported(raw.tape, START, parser);
      assert output.offered + [] == output.offered;
    }

    // The counters are the numbers of reports of their kinds.
    lemma CountersAgree()
      requires Valid()
      ensures malformed == MalformedReports(output.offered + Staged())
      ensures oversized == Tally(output.offered + Staged(), Oversized)
      ensures clippedMetadata == Cuts(output.offered + Staged(), line => Overlong(line, schema))
    {
      ParserIsFaithful(schema);
      CountersCount(START, consumed, parser);
      forall line ensures parser.clips(line) == Overlong(line, schema) {
        LineBecomes(line, schema);
      }
      CutsAlike(output.offered + Staged(), parser.clips, line => Overlong(line, schema));
    }

    // What was handed on and staged, told without the parser: whatever comes of lines is what
    // whole lines of the stream consumed become, and each of these has its item in its place.
    lemma HandsOnLines()
      requires Valid()
      ensures LinesBecome(consumed, output.offered + Staged(), 0, schema)
    {
      HandsOnOnePass();
      ConsumedEndsOnce();
      OnePassBecomes(consumed, 0, schema);
    }
  }

  lemma {:induction false} CutsAlike(items: seq<Item>, clips: seq<Byte> -> bool, clips': seq<Byte> -> bool)
    requires forall line :: clips(line) == clips'(line)
    ensures Cuts(items, clips) == Cuts(items, clips')
  {
    if items != [] {
      CutsAlike(items[1..], clips, clips');
    }
  }

  // What may happen to a feed.
  datatype Move = Turn(now: int, terminal: bool) | Halt(now: int)

  ghost predicate Grows<T>(history: seq<seq<T>>) {
    forall i, j :: 0 <= i <= j < |history| ==> history[i] <= history[j]
  }

  lemma GrowsOn<T>(history: seq<seq<T>>, next: seq<T>)
    requires Grows(history) && history != [] && history[|history| - 1] <= next
    ensures Grows(history + [next])
  {
    forall i, j | 0 <= i <= j < |history| + 1 ensures (history + [next])[i] <= (history + [next])[j] {
      if i < |history| {
        assert history[i] <= history[|history| - 1];
      }
    }
  }

  // Every run, whatever the helper delivers and how its bytes are cut into messages, whatever
  // the mailboxes refuse, and however turns and orders to stop come: what was handed on, with
  // what is staged, is the one pass over a beginning of the stream that the helper delivers,
  // and over all of it once the feed has closed of itself. Nothing handed on is taken back.
  method Run(schema: Schema, queue: seq<Message>, errorQueue: seq<Message>, moves: seq<Move>)
    returns (feed: Feed, ghost history: seq<seq<Item>>)
    requires Deliverable(queue) && Deliverable(errorQueue)
    ensures feed.Valid() && feed.schema == schema
    ensures feed.consumed <= Unroll(queue)
    ensures feed.output.offered + feed.Staged() == OnePass(feed.consumed, 0, ParserOf(schema))
    ensures LinesBecome(feed.consumed, feed.output.offered + feed.Staged(), 0, schema)
    ensures feed.closed && !feed.stopped ==>
              feed.consumed == Unroll(queue) && feed.output.offered == OnePass(Unroll(queue), 0, ParserOf(schema))
    ensures feed.stopped ==> exists k :: 0 <= k < |moves| && moves[k].Halt?
    ensures |history| == |moves| + 1 && history[0] == [] && history[|moves|] == feed.output.offered
    ensures Grows(history)
  {
    var raw := new RawMailbox(queue);
    var errors := new RawMailbox(errorQueue);
    feed := new Feed(schema, raw, errors);
    history := feed.Follow(moves);
    feed.IsOnTape();
    feed.HandsOnOnePass();
    feed.HandsOnLines();
    if feed.closed && !feed.stopped {
      feed.ClosedMeansComplete();
    }
  }

  // Every run of a process that is terminal and whose streams end: after as many turns as its
  // streams have events and messages, one more, and one for each refusal, the feed has closed,
  // and handed on the one pass over the whole stream.
  method RunToEnd(schema: Schema, queue: seq<Message>, errorQueue: seq<Message>, times: seq<int>) returns (feed: Feed)
    requires Deliverable(queue) && Deliverable(errorQueue) && Ended(queue) && Ended(errorQueue)
    requires forall k :: 0 <= k < |times| ==> 0 <= times[k]
    requires forall j, k :: 0 <= j < k < |times| ==> times[j] <= times[k]
    ensures feed.closed || |times| <= |Unroll(queue)| + |errorQueue| + feed.Hindrances()
    ensures feed.closed ==> feed.output.offered == OnePass(Unroll(queue), 0, ParserOf(schema))
    ensures feed.closed ==> LinesBecome(Unroll(queue), feed.output.offered, 0, schema)
  {
    var raw := new RawMailbox(queue);
    var errors := new RawMailbox(errorQueue);
    feed := new Feed(schema, raw, errors);
    feed.FinalTurns(times);
    if feed.closed {
      feed.ClosedMeansComplete();
      feed.HandsOnLines();
      assert feed.output.offered + [] == feed.output.offered;
    }
  }

  ghost predicate OnTape(
    tape: seq<Message>, parser: Parser, taken: seq<Message>, consumed: seq<Event>, offered: seq<Item>)
  {
    taken <= tape && consumed <= Unroll(tape) && offered <= Emit(START, consumed, parser)
  }

  // Of what begins the same tape, the longer begins with the shorter.
  lemma OnTapeGrows(
    tape: seq<Message>, parser: Parser, taken: seq<Message>, consumed: seq<Event>, offered: seq<Item>,
    taken': seq<Message>, consumed': seq<Event>, offered': seq<Item>)
    requires OnTape(tape, parser, taken, consumed, offered) && OnTape(tape, parser, taken', consumed', offered')
    requires |taken| <= |taken'| && |consumed| <= |consumed'| && |offered| <= |offered'|
    ensures taken <= taken' && consumed <= consumed' && offered <= offered'
  {
    assert consumed' == consumed + consumed'[|consumed|..];
    RunOn(START, consumed, consumed'[|consumed|..], parser);
  }

  lemma {:induction false} UnrollPrefix(a: seq<Message>, b: seq<Message>)
    requires a <= b
    ensures Unroll(a) <= Unroll(b)
  {
    if |a| < |b| {
      UnrollPrefix(a, b[..|b| - 1]);
    } else {
      assert a == b;
    }
  }

  lemma CellsFrom(m: Message, position: nat)
    requires m.Chunk? && position < |m.bytes|
    ensures Cells(m.bytes[position..], m.arrival) ==
            [Cell(m.bytes[position], m.arrival)] + Cells(m.bytes[position + 1..], m.arrival)
  {
  }

  lemma Append(events: seq<Event>, e: Event, rest: seq<Event>)
    ensures events + ([e] + rest) == events + [e] + rest
    ensures Eof in events + [e] <==> Eof in events || e == Eof
  {
  }

  lemma {:induction false} UnrollEndsOnce(messages: seq<Message>)
    requires EndIsLast(messages)
    ensures EndsOnce(Unroll(messages))
    ensures (messages == [] || messages[|messages| - 1].Chunk?) ==> Eof !in Unroll(messages)
  {
    if messages != [] {
      UnrollEndsOnce(messages[..|messages| - 1]);
    }
  }

  lemma {:induction false} EofIsEnd(messages: seq<Message>)
    requires Eof in Unroll(messages)
    ensures exists k :: 0 <= k < |messages| && messages[k].End?
  {
    var last := messages[|messages| - 1];
    if !last.End? {
      EofIsEnd(messages[..|messages| - 1]);
      var k :| 0 <= k < |messages| - 1 && messages[..|messages| - 1][k].End?;
      assert messages[k].End?;
    }
  }
}
