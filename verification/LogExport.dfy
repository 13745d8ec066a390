/**
 The export of retained records: a snapshot freezes one source, copies its rows a quantum at
 a time, and hands the text to the writer.
 */
module LogExport {
  import opened Wrappers
  import opened ExportCopy

  // A source: whether a lane of the controller feeds it, the rows its filter shows, of which
  // some may be gone, and the rows that finishing its stream would leave.
  datatype Source = Source(
    id: nat, attached: bool, restarting: bool, frozen: bool, rows: seq<Option<Row>>, finished: seq<Option<Row>>)

  datatype Outcome = NoSnapshot | Gone | Waiting | NoSelection | Overflow | Copying | Busy | Submitted

  datatype Retrying = Refused | InPlace | Reopening

  // ----- The sources ------------------------------------------------------------------

  predicate Distinct(sources: seq<Source>) {
    forall i, j :: 0 <= i < j < |sources| ==> sources[i].id != sources[j].id
  }

  function FindFrom(sources: seq<Source>, id: nat, from: nat): (index: Option<nat>)
    requires from <= |sources|
    ensures index.Some? ==> from <= index.value < |sources| && sources[index.value].id == id
    ensures index.None? ==> forall i :: from <= i < |sources| ==> sources[i].id != id
    decreases |sources| - from
  {
    if from == |sources| then None
    else if sources[from].id == id then Some(from)
    else FindFrom(sources, id, from + 1)
  }

  predicate CopyingFrom(snapshot: Option<Snapshot>, source: Source) {
    snapshot.Some? && snapshot.value.source == source.id && snapshot.value.frozen && !snapshot.value.ready
  }

  // A source is frozen exactly while the snapshot names it and copies its rows.
  ghost predicate FrozenByCopying(sources: seq<Source>, snapshot: Option<Snapshot>) {
    forall i :: 0 <= i < |sources| ==> (sources[i].frozen <==> CopyingFrom(snapshot, sources[i]))
  }

  // The copy that the freezing of a source begins.
  function Freezing(s: Snapshot, source: Source, selection: Option<(nat, nat)>, title: string): (c: Copy) {
    var range := Range(s.selected, selection, |source.rows|);
    Active(false, source.restarting, source.rows, source.finished,
           s.(frozen := true, position := range.0, end := range.1, copied := 0, contents := title))
  }

  // What there is of a source and its snapshot, as a copy.
  function ViewOf(source: Source, s: Snapshot): (c: Copy) {
    Active(source.attached, source.restarting, source.rows, source.finished, s)
  }

  // A source whose stream has been stopped.
  function Stopped(source: Source, finishes: bool): (next: Source) {
    source.(restarting := false, rows := if finishes then source.finished else source.rows)
  }

  // Finishing again changes nothing.
  lemma FinishedOnce(source: Source, finishes: bool)
    requires Finishes(source.rows, source.finished)
    ensures Finishes(Stopped(source, finishes).rows, source.finished)
  {
    assert Thinned(source.finished, source.finished);
  }

  // How a turn leaves the copy: begun by it, or as before; with this turn behind all others.
  ghost predicate Went(
    s: Snapshot, source: Source, selection: Option<(nat, nat)>, title: string, begun: Copy, events: seq<Event>,
    free: bool, begun': Copy, events': seq<Event>)
  {
    if s.frozen then begun' == begun && events' == events + [Turn(free)]
    else begun' == Freezing(s, source, selection, title) && events' == [Turn(free)]
  }

  // The place of the source that a snapshot is of, if it is still there.
  function Exported(sources: seq<Source>, snapshot: Option<Snapshot>): (index: Option<nat>)
    ensures index.Some? ==>
              snapshot.Some? && index.value < |sources| && sources[index.value].id == snapshot.value.source
    ensures index.None? && snapshot.Some? ==> forall i :: 0 <= i < |sources| ==> sources[i].id != snapshot.value.source
  {
    if snapshot.Some? then FindFrom(sources, snapshot.value.source, 0) else None
  }

  // A snapshot stays one of its source.
  predicate SameSource(before: Option<Snapshot>, after: Option<Snapshot>) {
    after.Some? ==> before.Some? && after.value.source == before.value.source
  }

  // All sources are as before, but for the lane and the mark of one.
  ghost predicate OnlyLane(before: seq<Source>, after: seq<Source>, k: nat) {
    && |after| == |before| && k < |after|
    && after == before[k := before[k].(attached := after[k].attached, frozen := after[k].frozen)]
  }

  // The rows of a whole selection, whichever end it was made from; all rows without one.
  function Range(selected: bool, selection: Option<(nat, nat)>, size: nat): (range: (nat, nat)) {
    if selected && selection.Some? then
      var (a, b) := selection.value;
      (if a < b then a else b, (if a < b then b else a) + 1)
    else (0, size)
  }

  // The rows that are to be exported: of a selection, those between its two ends, whichever
  // comes first, with both of them; without one, all.
  predicate Chosen(selected: bool, selection: Option<(nat, nat)>, size: nat, i: nat) {
    if selected then
      selection.Some? && (selection.value.0 <= i <= selection.value.1 || selection.value.1 <= i <= selection.value.0)
    else i < size
  }

  // A copy of exactly the chosen rows of a source, behind a heading.
  ghost predicate CopiesChosen(
    c: Copy, selected: bool, selection: Option<(nat, nat)>, rows: seq<Option<Row>>, title: string)
  {
    && c.Active? && c.rows == rows && c.snapshot.contents == title
    && forall i: nat :: c.snapshot.position <= i < c.snapshot.end <==> Chosen(selected, selection, |rows|, i)
  }

  lemma FreezingChooses(s: Snapshot, source: Source, selection: Option<(nat, nat)>, title: string)
    requires s.selected ==> selection.Some?
    ensures CopiesChosen(Freezing(s, source, selection, title), s.selected, selection, source.rows, title)
  {
  }

  class LogMonitor {
    var sources: seq<Source>
    var snapshot: Option<Snapshot>
    var exportWritePending: bool
    var nextSource: nat
    // The copy as the last freezing began it, and what has happened to it since.
    ghost var begun: Copy
    ghost var events: seq<Event>

    // The copy under way is what has become of the copy that was begun.
    ghost predicate CopyIsRun()
      reads `sources, `snapshot, `begun, `events
    {
      snapshot.Some? && snapshot.value.frozen ==>
        && Frozen(begun)
        && |snapshot.value.contents| <= EXPORT_LIMIT
        && (snapshot.value.ready ==> After(begun, events) == Ready(snapshot.value.contents))
        && (forall i :: 0 <= i < |sources| && CopyingFrom(snapshot, sources[i]) ==>
              After(begun, events) == ViewOf(sources[i], snapshot.value))
    }

    ghost predicate Sound()
      reads `sources, `snapshot, `exportWritePending, `nextSource, `begun, `events
    {
      && Distinct(sources) && FrozenByCopying(sources, snapshot) && CopyIsRun()
      && !(snapshot.Some? && exportWritePending)
      && (snapshot.Some? && !snapshot.value.frozen ==> !snapshot.value.ready)
      && (forall i :: 0 <= i < |sources| ==> sources[i].id < nextSource)
      && (forall i :: 0 <= i < |sources| ==> Finishes(sources[i].rows, sources[i].finished))
      && (snapshot.Some? ==> snapshot.value.source < nextSource)
    }

    ghost predicate Valid()
      reads `sources, `snapshot, `exportWritePending, `nextSource, `begun, `events
    {
      Sound() && (snapshot.Some? && snapshot.value.frozen ==> events != [] && events[0].Turn?)
    }

    // What happens to a source happens to the copy of it.
    ghost method Note(index: nat, e: Event)
      requires Valid() && index < |sources|
      modifies `events
      ensures events == if CopyingFrom(snapshot, sources[index]) then old(events) + [e] else old(events)
      ensures CopyingFrom(snapshot, sources[index]) ==>
                After(begun, events) == Next(ViewOf(sources[index], snapshot.value), e)
    {
      if CopyingFrom(snapshot, sources[index]) {
        AfterMore(begun, events, e);
        events := events + [e];
      }
    }

    constructor ()
      ensures Valid() && sources == [] && snapshot == None && !exportWritePending && nextSource == 0
    {
      sources, snapshot, exportWritePending, nextSource := [], None, false, 0;
      begun, events := TooLong, [];
    }

    // install: a new source, with its lane.
    method Install(rows: seq<Option<Row>>, finished: seq<Option<Row>>)
      requires Valid() && Finishes(rows, finished)
      modifies `sources, `nextSource
      ensures Valid() && sources == old(sources) + [Source(old(nextSource), true, false, false, rows, finished)]
      ensures nextSource == old(nextSource) + 1
    {
      sources := sources + [Source(nextSource, true, false, false, rows, finished)];
      nextSource := nextSource + 1;
    }

    // What the controller does to the rows of a source that it feeds.
    method Feed(index: nat, rows: seq<Option<Row>>, finished: seq<Option<Row>>)
      requires Valid() && index < |sources| && sources[index].attached && Finishes(rows, finished)
      modifies `sources, `events
      ensures Valid() && sources == old(sources)[index := old(sources)[index].(rows := rows, finished := finished)]
      ensures events == if CopyingFrom(snapshot, old(sources)[index]) then old(events) + [Fed(rows, finished)]
                        else old(events)
    {
      Note(index, Fed(rows, finished));
      sources := sources[index := sources[index].(rows := rows, finished := finished)];
    }

    // Clearing what a source retains, which a snapshot forbids. Rows that a filter has
    // chosen keep their places until it is fed.
    method ClearRetention(index: nat, left: seq<Option<Row>>) returns (done: bool)
      requires Valid() && index < |sources| && (left == [] || Thinned(sources[index].rows, left))
      modifies `sources
      ensures Valid() && done == !old(sources)[index].frozen
      ensures sources == if done then old(sources)[index := old(sources)[index].(rows := left, finished := left)]
                         else old(sources)
    {
      done := !sources[index].frozen;
      if done {
        sources := sources[index := sources[index].(rows := left, finished := left)];
      }
    }

    // stop: the source is no longer waiting to be restarted, and its stream is finished,
    // frozen or not, unless its mailbox refuses.
    method StopSource(index: nat, finishes: bool)
      requires Valid() && index < |sources|
      modifies `sources, `events
      ensures Valid() && sources == old(sources)[index := Stopped(old(sources)[index], finishes)]
      ensures events == if CopyingFrom(snapshot, old(sources)[index]) then old(events) + [Halted(finishes)]
                        else old(events)
    {
      Note(index, Halted(finishes));
      FinishedOnce(sources[index], finishes);
      sources := sources[index := Stopped(sources[index], finishes)];
    }

    // retry_active: refused while the source is the snapshot's; a follower may retry by itself
    // and keep its lane; else the source is detached and stopped, and waits to be restarted.
    method Retry(index: nat, inPlace: bool, finishes: bool) returns (answer: Retrying)
      requires Valid() && index < |sources|
      modifies `sources
      ensures Valid()
      ensures answer == if snapshot.Some? && snapshot.value.source == old(sources)[index].id then Refused
                        else if inPlace then InPlace else Reopening
      ensures sources ==
              if answer == Reopening
              then old(sources)[index := Stopped(old(sources)[index], finishes).(attached := false, restarting := true)]
              else old(sources)
    {
      if snapshot.Some? && snapshot.value.source == sources[index].id {
        return Refused;
      }
      if inPlace {
        return InPlace;
      }
      sources := sources[index := Stopped(sources[index], finishes).(attached := false, restarting := true)];
      return Reopening;
    }

    // A source waiting to be restarted gets its lane back.
    method Restart(index: nat)
      requires Valid() && index < |sources| && sources[index].restarting
      modifies `sources, `events
      ensures Valid()
      ensures sources == old(sources)[index := old(sources)[index].(attached := true, restarting := false)]
      ensures events == if CopyingFrom(snapshot, old(sources)[index]) then old(events) + [Restarted] else old(events)
    {
      Note(index, Restarted);
      sources := sources[index := sources[index].(attached := true, restarting := false)];
    }

    // close_source: a snapshot of the source goes with it.
    method Close(index: nat)
      requires Valid() && index < |sources|
      modifies `sources, `snapshot
      ensures Valid() && sources == old(sources)[..index] + old(sources)[index + 1..]
      ensures snapshot == if old(snapshot.Some? && snapshot.value.source == sources[index].id) then None
                          else old(snapshot)
    {
      var id := sources[index].id;
      if snapshot.Some? && snapshot.value.source == id {
        snapshot := None;
      }
      sources := sources[..index] + sources[index + 1..];
    }

    // begin_export, for a path that will do.
    method BeginExport(index: nat, selected: bool) returns (done: bool)
      requires Valid() && index < |sources|
      modifies `snapshot
      ensures Valid() && done == !(old(snapshot).Some? || exportWritePending)
      ensures snapshot == if done then Some(Snapshot(sources[index].id, selected, false, false, 0, 0, 0, ""))
                          else old(snapshot)
    {
      done := !(snapshot.Some? || exportWritePending);
      if done {
        snapshot := Some(Snapshot(sources[index].id, selected, false, false, 0, 0, 0, ""));
      }
    }

    // The freezing part of export_step. The heading is short, and a selection is within
    // the rows.
    method Freeze(index: nat, selection: Option<(nat, nat)>, title: string) returns (done: bool)
      requires Valid() && snapshot.Some? && !snapshot.value.frozen && |title| <= EXPORT_LIMIT
      requires index < |sources| && sources[index].id == snapshot.value.source
      requires selection.Some? ==>
                 selection.value.0 < |sources[index].rows| && selection.value.1 < |sources[index].rows|
      modifies `sources, `snapshot, `begun, `events
      ensures Sound() && exportWritePending == old(exportWritePending)
      ensures done == (old(snapshot).value.selected ==> selection.Some?)
      ensures SameSource(old(snapshot), snapshot)
      ensures !done ==> snapshot == None && sources == old(sources) && begun == old(begun) && events == old(events)
      ensures done ==>
        && begun == Freezing(old(snapshot).value, old(sources)[index], selection, title) && events == []
        && snapshot == Some(begun.snapshot) && snapshot.value.source == old(snapshot).value.source
        && snapshot.value.frozen && !snapshot.value.ready
        && sources == old(sources)[index := old(sources)[index].(attached := false, frozen := true)]
    {
      var s := snapshot.value;
      if s.selected && selection == None {
        snapshot := None;
        return false;
      }
      begun, events := Freezing(s, sources[index], selection, title), [];
      var range := Range(s.selected, selection, |sources[index].rows|);
      snapshot := Some(s.(frozen := true, position := range.0, end := range.1, copied := 0, contents := title));
      sources := sources[index := sources[index].(attached := false, frozen := true)];
      return true;
    }

    // The copying loop: as many rows as reach the end, the number of records or the number
    // of bytes of a quantum, unless the text would be too long.
    static method CopyRows(first: Snapshot, rows: seq<Option<Row>>) returns (ok: bool, s: Snapshot)
      requires |first.contents| <= EXPORT_LIMIT
      ensures (ok, s) == Advance(rows, first, 0, 0)
      ensures first.position <= s.position && s == Copied(first, rows, s.position) && |s.contents| <= EXPORT_LIMIT
      ensures s.position == first.position || s.position <= s.end
      ensures ok ==> Quantum(rows, first.position, s.position, s.end)
      ensures Present(rows, first.position, s.position) <= 128 && |s.contents| <= 0x20_0000
      ensures ok && s.position < s.end ==>
        Present(rows, first.position, s.position) == 128 || Bytes(rows, first.position, s.position) >= 0x1_0000
      ensures !ok ==> s.position < s.end && |s.contents| + Width(At(rows, s.position)) > 0x20_0000
    {
      ghost var whole := Advance(rows, first, 0, 0);
      s, ok := first, true;
      var bytes, records := 0, 0;
      while ok && s.position < s.end && records < QUANTUM_RECORDS && bytes < QUANTUM_BYTES
        invariant |s.contents| <= EXPORT_LIMIT && bytes >= 0
        invariant whole == if ok then Advance(rows, s, records, bytes) else (false, s)
        decreases ok, s.end - s.position
      {
        var row := At(rows, s.position);
        if row == None {
          AdvanceGoes(rows, s, records, bytes);
          s := s.(position := s.position + 1);
        } else if Width(row) > EXPORT_LIMIT - |s.contents| {
          AdvanceFails(rows, s, records, bytes);
          ok := false;
        } else {
          AdvanceGoes(rows, s, records, bytes);
          WidthOfLine(row.value);
          s := s.(position := s.position + 1, contents := s.contents + Line(row.value), copied := s.copied + 1);
          bytes, records := bytes + Width(row), records + 1;
        }
      }
      if ok {
        AdvanceStays(rows, s, records, bytes);
      }
      AdvanceCopies(rows, first, 0, 0);
    }

    // What there is after a turn, and what it returned, is what has become of the copy.
    ghost predicate Reached(index: nat, outcome: Outcome, contents: string)
      reads `sources, `snapshot, `begun, `events
    {
      match After(begun, events)
      case Active(_, _, _, _, _) =>
        && outcome == Copying && index < |sources| && CopyingFrom(snapshot, sources[index])
        && After(begun, events) == ViewOf(sources[index], snapshot.value)
      case Ready(text) => outcome == Busy && snapshot.Some? && snapshot.value.ready && snapshot.value.contents == text
      case Written(text) => outcome == Submitted && snapshot == None && contents == text
      case TooLong => outcome == Overflow && snapshot == None
    }

    // The source goes on as before, with its lane.
    method Thaw(index: nat)
      requires Distinct(sources) && index < |sources| && CopyingFrom(snapshot, sources[index])
      requires FrozenByCopying(sources, snapshot)
      modifies `sources
      ensures Distinct(sources) && FrozenByCopying(sources, None)
      ensures sources == old(sources)[index := old(sources)[index].(frozen := false, attached := true)]
    {
      sources := sources[index := sources[index].(frozen := false, attached := true)];
    }

    // The copying and its end, of a snapshot that is still copying: the effect on the copy
    // is that of a turn without room at the writer.
    method CopyOn(index: nat) returns (outcome: Outcome)
      requires Distinct(sources) && FrozenByCopying(sources, snapshot)
      requires index < |sources| && CopyingFrom(snapshot, sources[index]) && |snapshot.value.contents| <= EXPORT_LIMIT
      modifies `sources, `snapshot
      ensures outcome in {Overflow, Copying, Busy}
      ensures Distinct(sources) && FrozenByCopying(sources, if outcome == Copying then snapshot else None)
      ensures sources == if outcome == Copying then old(sources)
                         else old(sources)[index := old(sources)[index].(frozen := false, attached := true)]
      ensures outcome == Overflow ==> snapshot == None
      ensures outcome == Copying ==>
        && snapshot.Some? && old(snapshot).value.position < snapshot.value.position < snapshot.value.end
        && CopyingFrom(snapshot, sources[index])
      ensures outcome == Busy ==>
        && snapshot.Some? && snapshot.value.frozen && snapshot.value.ready
        && snapshot.value.source == old(snapshot).value.source
      ensures outcome != Overflow ==> |snapshot.value.contents| <= EXPORT_LIMIT
      ensures Next(old(ViewOf(sources[index], snapshot.value)), Turn(false)) ==
              match outcome
              case Overflow => TooLong
              case Busy => Ready(snapshot.value.contents)
              case _ => ViewOf(sources[index], snapshot.value)
    {
      var ok, s := CopyRows(snapshot.value, sources[index].rows);
      if !ok {
        Thaw(index);
        snapshot := None;
        return Overflow;
      }
      if s.position < s.end {
        snapshot := Some(s);
        return Copying;
      }
      Thaw(index);
      snapshot := Some(s.(ready := true));
      return Busy;
    }

    // The writer is offered the text.
    method Submit(free: bool) returns (outcome: Outcome, contents: string)
      requires snapshot.Some? && !exportWritePending
      modifies `snapshot, `exportWritePending
      ensures outcome == (if free then Submitted else Busy) && exportWritePending == free
      ensures snapshot == (if free then None else old(snapshot)) && (free ==> contents == old(snapshot).value.contents)
    {
      if free {
        contents := snapshot.value.contents;
        snapshot, exportWritePending, outcome := None, true, Submitted;
      } else {
        contents, outcome := "", Busy;
      }
    }

    // A turn of a snapshot that is still copying.
    method CopyTurn(index: nat, free: bool) returns (outcome: Outcome, contents: string)
      requires Sound() && index < |sources| && CopyingFrom(snapshot, sources[index])
      requires events == [] || events[0].Turn?
      modifies `sources, `snapshot, `exportWritePending, `events
      ensures Valid() && outcome in {Overflow, Copying, Busy, Submitted}
      ensures events == old(events) + [Turn(free)]
      ensures sources == if outcome == Copying then old(sources)
                         else old(sources)[index := old(sources)[index].(frozen := false, attached := true)]
      ensures exportWritePending == (outcome == Submitted)
      ensures Reached(index, outcome, contents) && SameSource(old(snapshot), snapshot)
    {
      ghost var d := ViewOf(sources[index], snapshot.value);
      AfterMore(begun, events, Turn(free));
      TurnWithRoom(d, free);
      events := events + [Turn(free)];
      contents := "";
      outcome := CopyOn(index);
      assert After(begun, events) == Next(d, Turn(free));
      if outcome == Busy {
        outcome, contents := Submit(free);
      }
    }

    // A turn of a snapshot that has frozen its source.
    method CopyStep(index: nat, free: bool) returns (outcome: Outcome, contents: string)
      requires Sound() && snapshot.Some? && snapshot.value.frozen
      requires events == [] || events[0].Turn?
      requires index < |sources| && sources[index].id == snapshot.value.source
      modifies `sources, `snapshot, `exportWritePending, `events
      ensures Valid() && outcome in {Overflow, Copying, Busy, Submitted}
      ensures events == old(events) + [Turn(free)]
      ensures sources == if outcome == Copying || old(snapshot).value.ready then old(sources)
                         else old(sources)[index := old(sources)[index].(frozen := false, attached := true)]
      ensures exportWritePending == (outcome == Submitted)
      ensures Reached(index, outcome, contents) && SameSource(old(snapshot), snapshot)
    {
      if !snapshot.value.ready {
        outcome, contents := CopyTurn(index, free);
      } else {
        AfterMore(begun, events, Turn(free));
        events := events + [Turn(free)];
        outcome, contents := Submit(free);
      }
    }

    // export_step: one turn of the export. `taken` says that a result was there to take,
    // `pending` that the filter has yet to settle, `free` that the writer has room.
    // The turn that freezes the source begins a copy of its rows; every turn from there on
    // is one of that copy; and what is submitted, or given up for its length, is what has
    // become of it: the one pass over the rows at the freezing, if the copy was begun safe.
    method ExportStep(taken: bool, pending: bool, selection: Option<(nat, nat)>, title: string, free: bool)
      returns (outcome: Outcome, contents: string)
      requires Valid() && |title| <= EXPORT_LIMIT
      requires var k := Exported(sources, snapshot);
               k.Some? && selection.Some? ==>
                 selection.value.0 < |sources[k.value].rows| && selection.value.1 < |sources[k.value].rows|
      modifies this
      ensures Valid() && nextSource == old(nextSource)
      ensures exportWritePending == (outcome == Submitted || (old(exportWritePending) && !taken))
      ensures outcome == NoSnapshot <==> old(snapshot) == None
      ensures outcome == Gone <==> old(snapshot).Some? && Exported(old(sources), old(snapshot)) == None
      ensures outcome == Waiting <==>
                pending && Exported(old(sources), old(snapshot)).Some? && !old(snapshot).value.frozen
      ensures outcome == NoSelection ==>
                !old(snapshot).value.frozen && old(snapshot).value.selected && selection == None
      ensures outcome in {NoSnapshot, Gone, NoSelection} ==> snapshot == None
      ensures outcome == Waiting ==> snapshot == old(snapshot)
      ensures SameSource(old(snapshot), snapshot)
      ensures outcome !in {Overflow, Copying, Busy, Submitted} ==>
        sources == old(sources) && begun == old(begun) && events == old(events)
      ensures outcome in {Overflow, Copying, Busy, Submitted} ==>
        var k := Exported(old(sources), old(snapshot)).value;
        && OnlyLane(old(sources), sources, k)
        && Went(old(snapshot).value, old(sources)[k], selection, title, old(begun), old(events), free, begun, events)
        && Frozen(begun) && Reached(k, outcome, contents)
      ensures outcome in {Overflow, Copying, Busy, Submitted} && !old(snapshot).value.frozen ==>
        var k := Exported(old(sources), old(snapshot)).value;
        CopiesChosen(begun, old(snapshot).value.selected, selection, old(sources)[k].rows, title)
      ensures outcome == Submitted && Safe(begun) ==> contents == Whole(begun) && |contents| <= 0x20_0000
      ensures outcome == Submitted && Safe(begun) ==>
        Holds(contents, begun.snapshot.contents, begun.rows, begun.snapshot.position, begun.snapshot.end)
      ensures outcome == Overflow && Safe(begun) ==> |Whole(begun)| > 0x20_0000
    {
      contents := "";
      if taken {
        exportWritePending := false;
      }
      if snapshot == None {
        return NoSnapshot, contents;
      }
      var found := Exported(sources, snapshot);
      if found == None {
        snapshot := None;
        return Gone, contents;
      }
      if !snapshot.value.frozen && pending {
        return Waiting, contents;
      }
      ghost var s, source := snapshot.value, sources[found.value];
      outcome, contents := FreezeAndCopy(found.value, selection, title, free);
      if outcome != NoSelection {
        WholeHolds(begun);
        if !s.frozen {
          FreezingChooses(s, source, selection, title);
        }
      }
    }

    // The turn of a snapshot whose source is there and has settled.
    method FreezeAndCopy(index: nat, selection: Option<(nat, nat)>, title: string, free: bool)
      returns (outcome: Outcome, contents: string)
      requires Valid() && snapshot.Some? && |title| <= EXPORT_LIMIT && !exportWritePending
      requires index < |sources| && sources[index].id == snapshot.value.source
      requires selection.Some? ==>
                 selection.value.0 < |sources[index].rows| && selection.value.1 < |sources[index].rows|
      modifies `sources, `snapshot, `exportWritePending, `begun, `events
      ensures Valid() && outcome in {NoSelection, Overflow, Copying, Busy, Submitted}
      ensures OnlyLane(old(sources), sources, index)
      ensures exportWritePending == (outcome == Submitted)
      ensures outcome == NoSelection <==>
                !old(snapshot).value.frozen && old(snapshot).value.selected && selection == None
      ensures outcome == NoSelection ==> snapshot == None
      ensures outcome == NoSelection ==> sources == old(sources) && begun == old(begun) && events == old(events)
      ensures outcome != NoSelection ==>
        Frozen(begun) &&
        Went(old(snapshot).value, old(sources)[index], selection, title, old(begun), old(events), free, begun, events)
      ensures outcome != NoSelection ==> Reached(index, outcome, contents)
      ensures SameSource(old(snapshot), snapshot)
      ensures outcome != NoSelection && Safe(begun) ==> Right(begun, After(begun, events))
    {
      if !snapshot.value.frozen {
        var done := Freeze(index, selection, title);
        if !done {
          return NoSelection, "";
        }
      }
      outcome, contents := CopyStep(index, free);
      if Safe(begun) {
        ghost var p := SafeRun(begun, events);
      }
    }

    // However long a copy has been under way, while its source waits to be restarted it
    // can still be spoilt: the source is restarted and fed, and the next turn submits a
    // text that is not the one pass, or gives up a pass within the limit.
    method Spoil(index: nat) returns (outcome: Outcome, contents: string)
      requires Valid() && index < |sources| && CopyingFrom(snapshot, sources[index]) && sources[index].restarting
      requires snapshot.value.position < snapshot.value.end
      modifies this
      ensures Valid() && begun == old(begun) && begun.Active? && Wrong(outcome, contents)
    {
      ghost var d := ViewOf(sources[index], snapshot.value);
      var rows := Spoiling(sources[index].rows, snapshot.value.position, snapshot.value.end);
      WaitingRun(begun, events);
      RestartSpoils(begun, d);
      Restart(index);
      AfterMore(begun, old(events), Restarted);
      Feed(index, rows, rows);
      AfterMore(begun, old(events) + [Restarted], Fed(rows, rows));
      AfterMore(begun, old(events) + [Restarted] + [Fed(rows, rows)], Turn(true));
      assert sources[index].id == snapshot.value.source;
      outcome, contents := ExportStep(false, false, None, "", true);
    }

    // What was submitted is not the one pass, or a pass within the limit was given up.
    ghost predicate Wrong(outcome: Outcome, contents: string)
      requires begun.Active?
      reads `begun
    {
      || (outcome == Submitted && (contents != Whole(begun) || |contents| > EXPORT_LIMIT))
      || (outcome == Overflow && |Whole(begun)| <= EXPORT_LIMIT)
    }

    // The turns that are left of a copy nothing disturbs.
    method TurnsToEnd(index: nat, ghost h: Copy) returns (outcome: Outcome, contents: string)
      requires Valid() && index < |sources| && CopyingFrom(snapshot, sources[index])
      requires Begun(h) && Steady(h, ViewOf(sources[index], snapshot.value))
      modifies this
      ensures Valid() && begun == old(begun) && Reached(index, outcome, contents)
      ensures !After(begun, events).Active? && !After(begun, events).Ready? && Right(h, After(begun, events))
      decreases snapshot.value.end - snapshot.value.position
    {
      ghost var d := ViewOf(sources[index], snapshot.value);
      SteadyTurn(h, d, true);
      if Next(d, Turn(true)).Active? {
        TurnMoves(d, true);
      }
      AfterMore(begun, events, Turn(true));
      assert Exported(sources, snapshot) == Some(index);
      outcome, contents := ExportStep(false, false, None, "", true);
      if outcome == Copying {
        outcome, contents := TurnsToEnd(index, h);
      }
    }

    // A copy that finishing would give a text to another effect is spoilt by a stop: its
    // source is finished, and the turns that are left submit that text or give it up.
    method SpoilByStop(index: nat) returns (outcome: Outcome, contents: string)
      requires Valid() && index < |sources| && CopyingFrom(snapshot, sources[index])
      requires Steady(begun, ViewOf(sources[index], snapshot.value))
      requires !Agrees(Whole(begun), Whole(FinishedAt(begun, snapshot.value.position)))
      modifies this
      ensures Valid() && begun == old(begun) && begun.Active? && Wrong(outcome, contents)
    {
      ghost var h := FinishedAt(begun, snapshot.value.position);
      StopSource(index, true);
      SteadyAtFirst(h);
      outcome, contents := TurnsToEnd(index, h);
      DisagreeingIsWrong(begun, h, After(begun, events));
    }

    // The one source of a monitor is to be exported, and waits to be restarted or not.
    static method Prepared(rows: seq<Option<Row>>, finished: seq<Option<Row>>, restarting: bool) returns (m: LogMonitor)
      requires Finishes(rows, finished)
      ensures fresh(m) && m.Valid() && !m.exportWritePending
      ensures m.sources == [Source(0, !restarting, restarting, false, rows, finished)]
      ensures m.snapshot == Some(Snapshot(0, false, false, false, 0, 0, 0, ""))
    {
      m := new LogMonitor();
      m.Install(rows, finished);
      if restarting {
        var answer := m.Retry(0, false, false);
      }
      var done := m.BeginExport(0, false);
    }

    // The turn that freezes it pauses.
    static method Paused(rows: seq<Option<Row>>, finished: seq<Option<Row>>, restarting: bool, ghost p: nat)
      returns (m: LogMonitor)
      requires Finishes(rows, finished) && PausesNext(Exporting(rows, finished, restarting), p)
      ensures fresh(m) && m.Valid() && |m.sources| == 1 && CopyingFrom(m.snapshot, m.sources[0])
      ensures m.sources[0].restarting == restarting && m.snapshot.value.position == p < m.snapshot.value.end
      ensures m.begun == Exporting(rows, finished, restarting)
      ensures Steady(m.begun, ViewOf(m.sources[0], m.snapshot.value))
    {
      m := Prepared(rows, finished, restarting);
      ghost var c := Exporting(rows, finished, restarting);
      FirstPause(c, p);
      assert Exported(m.sources, m.snapshot) == Some(0);
      var outcome, contents := m.ExportStep(false, false, None, "", true);
      assert m.begun == c && m.events == [Turn(true)];
    }

    // The restart of a source can make its export wrong: here is one.
    static method RestartHappens() returns (m: LogMonitor, outcome: Outcome, contents: string)
      ensures m.Valid() && m.begun == Exporting(Numbered(129), Grown(129), true) && m.Wrong(outcome, contents)
    {
      GrownFinishes(129);
      NumberedPauses(true);
      m := Paused(Numbered(129), Grown(129), true, 128);
      outcome, contents := m.Spoil(0);
    }

    // So can its stop, without any restart: the record under way gets a replacement character.
    static method StopHappens() returns (m: LogMonitor, outcome: Outcome, contents: string)
      ensures m.Valid() && m.begun == Exporting(Numbered(129), Grown(129), false) && m.Wrong(outcome, contents)
    {
      GrownFinishes(129);
      NumberedPauses(false);
      m := Paused(Numbered(129), Grown(129), false, 128);
      NumberedIsUnsafe();
      outcome, contents := m.SpoilByStop(0);
    }
  }

  // The export of all rows of the first source, as its freezing begins it.
  function Exporting(rows: seq<Option<Row>>, finished: seq<Option<Row>>, restarting: bool): (c: Copy) {
    Active(false, restarting, rows, finished, Snapshot(0, false, true, false, 0, |rows|, 0, ""))
  }

  function Strokes(n: nat): (name: string) {
    seq(n, _ => '1')
  }

  function Numbered(count: nat): (rows: seq<Option<Row>>)
    ensures |rows| == count
  {
    seq(count, i requires 0 <= i < count => Some(Row(Strokes(i), "")))
  }

  function Grown(count: nat): (rows: seq<Option<Row>>)
    requires count > 0
    ensures |rows| == count
  {
    Numbered(count)[count - 1 := Some(Row(Strokes(count - 1), "?"))]
  }

  lemma GrownFinishes(count: nat)
    requires count > 0
    ensures Finishes(Numbered(count), Grown(count))
  {
    assert Shifted(Numbered(count), Grown(count), 0) by {
      assert forall i, j :: 0 <= i < j < count ==> |Strokes(i)| != |Strokes(j)|;
    }
  }

  lemma {:induction false} NumberedSizes(n: nat)
    requires n <= 129
    ensures Present(Numbered(129), 0, n) == n && Bytes(Numbered(129), 0, n) <= n * 133
  {
    if n > 0 {
      NumberedSizes(n - 1);
      assert At(Numbered(129), n - 1) == Some(Row(Strokes(n - 1), ""));
    }
  }

  // The first turn of their export stops short of the last record.
  lemma NumberedPauses(restarting: bool)
    ensures PausesNext(Exporting(Numbered(129), Grown(129), restarting), 128)
  {
    NumberedSizes(127);
    NumberedSizes(128);
  }

  lemma NumberedIsUnsafe()
    ensures var c := Exporting(Numbered(129), Grown(129), false); !Agrees(Whole(c), Whole(FinishedAt(c, 128)))
  {
    var rows, finished := Numbered(129), Grown(129);
    GrownFinishes(129);
    NumberedSizes(129);
    BytesOfLines(rows, 0, 129);
    LastRowTells(Exporting(rows, finished, false), 128);
  }

  lemma LastRowTells(c: Copy, p: nat)
    requires Frozen(c) && |Whole(c)| <= EXPORT_LIMIT && c.snapshot.position < p < c.snapshot.end
    requires At(c.rows, p) != At(c.finished, p)
    ensures !Agrees(Whole(c), Whole(FinishedAt(c, p)))
  {
    FittingPause(c, p);
  }
}
