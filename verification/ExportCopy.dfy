/**
 The copy of an export, by itself: a snapshot of the rows of one source is copied a quantum
 at a time, while its source may be restarted, fed and stopped; and exactly when what comes
 of it is, on every schedule, the one pass over the rows as they were.
 */
module ExportCopy {
  import opened Wrappers

  const EXPORT_LIMIT := 2 * 1024 * 1024
  const QUANTUM_RECORDS := 128
  const QUANTUM_BYTES := 64 * 1024

  datatype Row = Row(id: string, text: string)

  datatype Snapshot = Snapshot(
    source: nat, selected: bool, frozen: bool, ready: bool, position: nat, end: nat, copied: nat, contents: string)

  // ----- One pass over the rows -------------------------------------------------------

  function Line(row: Row): (text: string) {
    "[" + row.id + "] " + row.text + "\n"
  }

  function At(rows: seq<Option<Row>>, index: nat): (row: Option<Row>) {
    if index < |rows| then rows[index] else None
  }

  // The text of a row, if it is still there.
  function LineAt(rows: seq<Option<Row>>, index: nat): (text: string) {
    if At(rows, index).Some? then Line(At(rows, index).value) else ""
  }

  // The text of the rows from one position to another.
  function Lines(rows: seq<Option<Row>>, start: nat, stop: nat): (text: string) {
    if stop <= start then "" else Lines(rows, start, stop - 1) + LineAt(rows, stop - 1)
  }

  function Count(row: Option<Row>): (count: nat) {
    if row.Some? then 1 else 0
  }

  function Present(rows: seq<Option<Row>>, start: nat, stop: nat): (count: nat) {
    if stop <= start then 0 else Present(rows, start, stop - 1) + Count(At(rows, stop - 1))
  }

  // How many bytes a row has in it, and some rows.
  function Width(row: Option<Row>): (size: nat) {
    if row.Some? then |row.value.id| + |row.value.text| + 4 else 0
  }

  lemma WidthOfLine(row: Row)
    ensures |Line(row)| == Width(Some(row))
  {
  }

  function Bytes(rows: seq<Option<Row>>, start: nat, stop: nat): (size: nat) {
    if stop <= start then 0 else Bytes(rows, start, stop - 1) + Width(At(rows, stop - 1))
  }

  lemma {:induction false} BytesOfLines(rows: seq<Option<Row>>, start: nat, stop: nat)
    ensures |Lines(rows, start, stop)| == Bytes(rows, start, stop)
  {
    if start < stop {
      BytesOfLines(rows, start, stop - 1);
      if At(rows, stop - 1).Some? {
        WidthOfLine(At(rows, stop - 1).value);
      }
    }
  }

  lemma {:induction false} BytesConcat(rows: seq<Option<Row>>, start: nat, mid: nat, stop: nat)
    requires start <= mid <= stop
    ensures Bytes(rows, start, stop) == Bytes(rows, start, mid) + Bytes(rows, mid, stop)
  {
    if mid < stop {
      BytesConcat(rows, start, mid, stop - 1);
    }
  }

  // One pass is as good as several, one after the other.
  lemma {:induction false} LinesConcat(rows: seq<Option<Row>>, start: nat, mid: nat, stop: nat)
    requires start <= mid <= stop
    ensures Lines(rows, start, stop) == Lines(rows, start, mid) + Lines(rows, mid, stop)
  {
    if mid == stop {
      assert Lines(rows, mid, stop) == "";
    } else {
      var last := LineAt(rows, stop - 1);
      LinesConcat(rows, start, mid, stop - 1);
      assert Lines(rows, start, stop) == Lines(rows, start, stop - 1) + last;
      assert Lines(rows, mid, stop) == Lines(rows, mid, stop - 1) + last;
      Associates(Lines(rows, start, mid), Lines(rows, mid, stop - 1), last);
    }
  }

  lemma {:induction false} PresentConcat(rows: seq<Option<Row>>, start: nat, mid: nat, stop: nat)
    requires start <= mid <= stop
    ensures Present(rows, start, stop) == Present(rows, start, mid) + Present(rows, mid, stop)
  {
    if mid < stop {
      PresentConcat(rows, start, mid, stop - 1);
    }
  }

  lemma Associates(a: string, b: string, c: string)
    ensures (a + b) + c == a + (b + c)
  {
  }

  // At a place, one of two lists of rows has a shorter line, unless they have the same row.
  ghost predicate Shorter(a: seq<Option<Row>>, b: seq<Option<Row>>, i: nat) {
    At(a, i) == At(b, i) || Width(At(a, i)) < Width(At(b, i))
  }

  lemma {:induction false} ShorterLines(a: seq<Option<Row>>, b: seq<Option<Row>>, start: nat, stop: nat)
    requires forall i :: start <= i < stop ==> Shorter(a, b, i)
    ensures Bytes(a, start, stop) <= Bytes(b, start, stop)
    ensures Bytes(a, start, stop) == Bytes(b, start, stop) ==> SameRows(a, b, start, stop)
  {
    if start < stop {
      ShorterLines(a, b, start, stop - 1);
      assert Shorter(a, b, stop - 1);
    }
  }

  ghost predicate SameRows(a: seq<Option<Row>>, b: seq<Option<Row>>, start: nat, stop: nat) {
    forall i :: start <= i < stop ==> At(a, i) == At(b, i)
  }

  lemma {:induction false} SameLines(a: seq<Option<Row>>, b: seq<Option<Row>>, start: nat, stop: nat)
    requires SameRows(a, b, start, stop)
    ensures Lines(a, start, stop) == Lines(b, start, stop)
  {
    if start < stop {
      SameLines(a, b, start, stop - 1);
    }
  }

  // ----- What finishing a source does to its rows --------------------------------------

  // Names of records are numbers and strokes.
  predicate Plain(id: string) {
    ']' !in id
  }

  // Rows that are all there, each with a name of its own.
  ghost predicate Named(rows: seq<Option<Row>>) {
    && (forall i :: 0 <= i < |rows| ==> rows[i].Some? && Plain(rows[i].value.id))
    && (forall i, j :: 0 <= i < j < |rows| ==> rows[i].value.id != rows[j].value.id)
  }

  // Rows that are the records themselves: the oldest k make room, and the last one, if it is
  // not finished, may get more text; or a mark held back at the start of the stream becomes a
  // record.
  ghost predicate Shifted(rows: seq<Option<Row>>, finished: seq<Option<Row>>, k: nat) {
    && Named(rows) && k <= |rows| && finished != [] && finished[|finished| - 1].Some?
    && (forall i :: 0 <= i < |finished| - 1 && i + k < |rows| ==> finished[i] == rows[i + k])
    && var last := finished[|finished| - 1].value;
       || (|finished| == |rows| - k && last.id == rows[|rows| - 1].value.id && rows[|rows| - 1].value.text <= last.text)
       || (|finished| == |rows| - k + 1 && Plain(last.id) &&
           forall i :: 0 <= i < |rows| ==> rows[i].value.id != last.id)
  }

  // Rows that a filter has chosen keep their places, and records that made room are gone
  // from theirs.
  ghost predicate Thinned(rows: seq<Option<Row>>, finished: seq<Option<Row>>) {
    |finished| == |rows| && forall i :: 0 <= i < |rows| ==> finished[i] == None || finished[i] == rows[i]
  }

  // What the end of a stream makes of the rows, when it finishes the record under way.
  ghost predicate Finishes(rows: seq<Option<Row>>, finished: seq<Option<Row>>) {
    Thinned(rows, finished) || exists k :: Shifted(rows, finished, k)
  }

  // Names that differ make lines that differ.
  lemma PlainNames(a: string, b: string, rest: string, rest': string)
    requires Plain(a) && Plain(b) && "[" + a + "] " + rest == "[" + b + "] " + rest'
    ensures a == b
  {
    var x, y := "[" + a + "] " + rest, "[" + b + "] " + rest';
    assert x[1 + |a|] == ']' && y[1 + |b|] == ']';
    assert forall i :: 0 <= i < |a| ==> x[1 + i] == a[i];
    assert forall i :: 0 <= i < |b| ==> y[1 + i] == b[i];
    if |a| < |b| {
      assert false;
    } else if |b| < |a| {
      assert false;
    } else {
      assert x[1..1 + |a|] == a && y[1..1 + |b|] == b;
    }
  }

  lemma FirstLine(rows: seq<Option<Row>>, start: nat, stop: nat)
    requires start < stop
    ensures Lines(rows, start, stop) == LineAt(rows, start) + Lines(rows, start + 1, stop)
  {
    LinesConcat(rows, start, start + 1, stop);
    SingleLine(rows, start);
  }

  lemma SingleLine(rows: seq<Option<Row>>, start: nat)
    ensures Lines(rows, start, start + 1) == LineAt(rows, start)
  {
    assert Lines(rows, start, start) == "";
    assert Lines(rows, start, start + 1) == "" + LineAt(rows, start);
  }

  // Rows that are another record at some place read differently from there on.
  lemma OtherName(a: seq<Option<Row>>, b: seq<Option<Row>>, start: nat, stop: nat)
    requires start < stop && At(a, start).Some? && At(b, start).Some?
    requires Plain(At(a, start).value.id) && Plain(At(b, start).value.id)
    requires At(a, start).value.id != At(b, start).value.id
    ensures Lines(a, start, stop) != Lines(b, start, stop)
  {
    FirstLine(a, start, stop);
    FirstLine(b, start, stop);
    var rest, rest' := Lines(a, start + 1, stop), Lines(b, start + 1, stop);
    OtherLine(At(a, start).value, At(b, start).value, rest, rest');
  }

  lemma OtherLine(p: Row, q: Row, rest: string, rest': string)
    requires Plain(p.id) && Plain(q.id) && p.id != q.id
    ensures Line(p) + rest != Line(q) + rest'
  {
    NameFirst(p, rest);
    NameFirst(q, rest');
    if Line(p) + rest == Line(q) + rest' {
      PlainNames(p.id, q.id, p.text + "\n" + rest, q.text + "\n" + rest');
    }
  }

  lemma NameFirst(row: Row, rest: string)
    ensures Line(row) + rest == "[" + row.id + "] " + (row.text + "\n" + rest)
  {
  }

  lemma {:induction false} NoLines(rows: seq<Option<Row>>, start: nat, stop: nat)
    requires |rows| <= start
    ensures Lines(rows, start, stop) == ""
  {
    if start < stop {
      NoLines(rows, start, stop - 1);
    }
  }

  // When records made room, everything has another place.
  lemma ShiftShows(rows: seq<Option<Row>>, finished: seq<Option<Row>>, k: nat, start: nat, stop: nat)
    requires Shifted(rows, finished, k) && k > 0 && start < stop <= |rows|
    ensures Lines(rows, start, stop) != Lines(finished, start, stop) && At(rows, start) != At(finished, start)
  {
    if start < |finished| {
      var other := finished[start].value.id;
      assert start < |finished| - 1 ==> finished[start] == rows[start + k];
      assert rows[start].value.id != other;
      OtherName(rows, finished, start, stop);
    } else {
      NoLines(finished, start, stop);
      FirstLine(rows, start, stop);
    }
  }

  // When none did, the last record has more text, if anything.
  lemma LastGrows(rows: seq<Option<Row>>, finished: seq<Option<Row>>, start: nat, stop: nat)
    requires Shifted(rows, finished, 0) && start <= stop <= |rows| && !SameRows(rows, finished, start, stop)
    ensures Lines(rows, start, stop) != Lines(finished, start, stop)
  {
    forall i | start <= i < stop ensures Shorter(rows, finished, i) {
      if i == |finished| - 1 {
        var p, q := rows[i].value, finished[i].value;
        assert |p.text| == |q.text| ==> p == q;
      } else {
        assert finished[i] == rows[i + 0];
      }
    }
    ShorterText(rows, finished, start, stop);
  }

  lemma ShorterText(a: seq<Option<Row>>, b: seq<Option<Row>>, start: nat, stop: nat)
    requires start <= stop && (forall i :: start <= i < stop ==> Shorter(a, b, i)) && !SameRows(a, b, start, stop)
    ensures Lines(a, start, stop) != Lines(b, start, stop)
  {
    ShorterLines(a, b, start, stop);
    BytesOfLines(a, start, stop);
    BytesOfLines(b, start, stop);
  }

  // What finishing changes in some rows, it changes in their text.
  lemma FinishShows(rows: seq<Option<Row>>, finished: seq<Option<Row>>, start: nat, stop: nat)
    requires Finishes(rows, finished) && start < stop <= |rows|
    ensures Lines(rows, start, stop) == Lines(finished, start, stop) <==> SameRows(rows, finished, start, stop)
  {
    if SameRows(rows, finished, start, stop) {
      SameLines(rows, finished, start, stop);
    } else if Thinned(rows, finished) {
      assert forall i :: start <= i < stop ==> Shorter(finished, rows, i);
      assert !SameRows(finished, rows, start, stop);
      ShorterText(finished, rows, start, stop);
    } else {
      var k :| Shifted(rows, finished, k);
      if k > 0 {
        ShiftShows(rows, finished, k, start, stop);
      } else {
        LastGrows(rows, finished, start, stop);
      }
    }
  }

  // ----- A quantum ---------------------------------------------------------------------

  // How far a quantum goes.
  predicate Quantum(rows: seq<Option<Row>>, start: nat, stop: nat, end: nat) {
    && (start < end ==> start < stop <= end) && (start >= end ==> stop == start)
    && Present(rows, start, stop) <= QUANTUM_RECORDS
    && (stop < end ==>
          Present(rows, start, stop) == QUANTUM_RECORDS || Bytes(rows, start, stop) >= QUANTUM_BYTES)
  }

  // A snapshot that has gone on copying to a position.
  function Copied(s: Snapshot, rows: seq<Option<Row>>, position: nat): (next: Snapshot) {
    s.(position := position, copied := s.copied + Present(rows, s.position, position),
       contents := s.contents + Lines(rows, s.position, position))
  }

  lemma CopiedNext(s: Snapshot, rows: seq<Option<Row>>, position: nat)
    requires s.position <= position
    ensures var c, next := Copied(s, rows, position), Copied(s, rows, position + 1);
            && next.contents == c.contents + LineAt(rows, position)
            && next.copied == c.copied + Count(At(rows, position))
    ensures Lines(rows, s.position, position + 1) == Lines(rows, s.position, position) + LineAt(rows, position)
  {
    Associates(s.contents, Lines(rows, s.position, position), LineAt(rows, position));
  }

  lemma CopiedSize(s: Snapshot, rows: seq<Option<Row>>, position: nat)
    ensures |Copied(s, rows, position).contents| == |s.contents| + Bytes(rows, s.position, position)
  {
    BytesOfLines(rows, s.position, position);
  }

  // Copying on twice is copying on once.
  lemma CopiedTwice(s: Snapshot, rows: seq<Option<Row>>, mid: nat, position: nat)
    requires s.position <= mid <= position
    ensures Copied(Copied(s, rows, mid), rows, position) == Copied(s, rows, position)
  {
    LinesConcat(rows, s.position, mid, position);
    PresentConcat(rows, s.position, mid, position);
    Associates(s.contents, Lines(rows, s.position, mid), Lines(rows, mid, position));
  }

  // A snapshot that has passed one more row, which may be gone.
  function Passed(s: Snapshot, row: Option<Row>): (next: Snapshot) {
    if row == None then s.(position := s.position + 1)
    else s.(position := s.position + 1, copied := s.copied + 1, contents := s.contents + Line(row.value))
  }

  lemma PassedIsCopied(s: Snapshot, rows: seq<Option<Row>>)
    ensures Passed(s, At(rows, s.position)) == Copied(s, rows, s.position + 1)
    ensures Present(rows, s.position, s.position + 1) == Count(At(rows, s.position))
  {
    CopiedNext(s, rows, s.position);
    assert Lines(rows, s.position, s.position) == "" && s.contents + "" == s.contents;
  }

  // The rest of a quantum that has copied some records and bytes: whether the text stays
  // within the limit, and the snapshot at its end.
  function Advance(rows: seq<Option<Row>>, s: Snapshot, records: nat, bytes: nat): (result: (bool, Snapshot))
    decreases s.end - s.position
  {
    if s.position >= s.end || records >= QUANTUM_RECORDS || bytes >= QUANTUM_BYTES then (true, s)
    else
      var row := At(rows, s.position);
      if row.Some? && Width(row) > EXPORT_LIMIT - |s.contents| then (false, s)
      else Advance(rows, Passed(s, row), records + Count(row), bytes + Width(row))
  }

  // The next row is copied, or is not there to be copied.
  predicate Goes(rows: seq<Option<Row>>, s: Snapshot, records: nat, bytes: nat) {
    && s.position < s.end && records < QUANTUM_RECORDS && bytes < QUANTUM_BYTES
    && (At(rows, s.position) == None || Width(At(rows, s.position)) <= EXPORT_LIMIT - |s.contents|)
  }

  lemma AdvanceStays(rows: seq<Option<Row>>, s: Snapshot, records: nat, bytes: nat)
    requires s.position >= s.end || records >= QUANTUM_RECORDS || bytes >= QUANTUM_BYTES
    ensures Advance(rows, s, records, bytes) == (true, s)
  {
  }

  lemma AdvanceGoes(rows: seq<Option<Row>>, s: Snapshot, records: nat, bytes: nat)
    requires Goes(rows, s, records, bytes)
    ensures var row := At(rows, s.position);
            Advance(rows, s, records, bytes) ==
            Advance(rows, Passed(s, row), records + Count(row), bytes + Width(At(rows, s.position)))
  {
  }

  lemma AdvanceFails(rows: seq<Option<Row>>, s: Snapshot, records: nat, bytes: nat)
    requires s.position < s.end && records < QUANTUM_RECORDS && bytes < QUANTUM_BYTES
    requires At(rows, s.position).Some? && Width(At(rows, s.position)) > EXPORT_LIMIT - |s.contents|
    ensures Advance(rows, s, records, bytes) == (false, s)
  {
  }

  // What a rest of a quantum does: it copies rows one after the other, to the end or as
  // many as it may, and fails only at a line that is too long.
  ghost predicate Advances(rows: seq<Option<Row>>, s: Snapshot, records: nat, bytes: nat, ok: bool, t: Snapshot) {
    && s.position <= t.position && (t.position == s.position || t.position <= s.end)
    && t == Copied(s, rows, t.position) && |t.contents| <= EXPORT_LIMIT
    && records + Present(rows, s.position, t.position) <= QUANTUM_RECORDS
    && (ok && t.position < s.end ==>
          || records + Present(rows, s.position, t.position) >= QUANTUM_RECORDS
          || bytes + Bytes(rows, s.position, t.position) >= QUANTUM_BYTES)
    && (!ok ==> t.position < s.end && |t.contents| + Width(At(rows, t.position)) > EXPORT_LIMIT)
  }

  lemma {:induction false} AdvanceCopies(rows: seq<Option<Row>>, s: Snapshot, records: nat, bytes: nat)
    requires |s.contents| <= EXPORT_LIMIT && records <= QUANTUM_RECORDS
    ensures var (ok, t) := Advance(rows, s, records, bytes); Advances(rows, s, records, bytes, ok, t)
    decreases s.end - s.position
  {
    if Goes(rows, s, records, bytes) {
      var row := At(rows, s.position);
      PassedFits(rows, s, records, bytes);
      AdvanceCopies(rows, Passed(s, row), records + Count(row), bytes + Width(At(rows, s.position)));
      AdvanceGoes(rows, s, records, bytes);
      var (ok, t) := Advance(rows, s, records, bytes);
      OneRowMore(rows, s, records, bytes, ok, t);
    } else {
      AdvanceEnds(rows, s, records, bytes);
    }
  }

  lemma PassedFits(rows: seq<Option<Row>>, s: Snapshot, records: nat, bytes: nat)
    requires |s.contents| <= EXPORT_LIMIT && Goes(rows, s, records, bytes)
    ensures var next := Passed(s, At(rows, s.position));
            |next.contents| <= EXPORT_LIMIT && next.position == s.position + 1 && next.end == s.end
    ensures records + Count(At(rows, s.position)) <= QUANTUM_RECORDS
  {
    if At(rows, s.position).Some? {
      WidthOfLine(At(rows, s.position).value);
    }
  }

  lemma AdvanceEnds(rows: seq<Option<Row>>, s: Snapshot, records: nat, bytes: nat)
    requires |s.contents| <= EXPORT_LIMIT && records <= QUANTUM_RECORDS && !Goes(rows, s, records, bytes)
    ensures var (ok, t) := Advance(rows, s, records, bytes); Advances(rows, s, records, bytes, ok, t)
  {
    Unmoved(s, rows);
  }

  lemma Unmoved(s: Snapshot, rows: seq<Option<Row>>)
    ensures Copied(s, rows, s.position) == s
    ensures Present(rows, s.position, s.position) == 0 && Lines(rows, s.position, s.position) == ""
  {
    assert s.contents + "" == s.contents;
  }

  lemma OneRowMore(rows: seq<Option<Row>>, s: Snapshot, records: nat, bytes: nat, ok: bool, t: Snapshot)
    requires s.position < s.end
    requires Advances(rows, Passed(s, At(rows, s.position)), records + Count(At(rows, s.position)),
                      bytes + Width(At(rows, s.position)), ok, t)
    ensures Advances(rows, s, records, bytes, ok, t)
  {
    PassedAndCopied(s, rows, t.position);
    OneRowLess(rows, s.position, t.position);
  }

  // A quantum is full when it has enough records or bytes.
  predicate Full(rows: seq<Option<Row>>, start: nat, stop: nat) {
    Present(rows, start, stop) >= QUANTUM_RECORDS || Bytes(rows, start, stop) >= QUANTUM_BYTES
  }

  lemma FullGrows(rows: seq<Option<Row>>, start: nat, mid: nat, stop: nat)
    requires start <= mid <= stop
    ensures Full(rows, start, mid) || Full(rows, mid, stop) ==> Full(rows, start, stop)
    ensures Bytes(rows, start, mid) <= Bytes(rows, start, stop)
  {
    BytesConcat(rows, start, mid, stop);
    PresentConcat(rows, start, mid, stop);
  }

  predicate JustFull(rows: seq<Option<Row>>, start: nat, stop: nat) {
    start < stop && Full(rows, start, stop) && !Full(rows, start, stop - 1)
  }

  // A quantum that is full by some place was full for the first time at one before it.
  lemma {:induction false} FirstFull(rows: seq<Option<Row>>, start: nat, stop: nat) returns (first: nat)
    requires Full(rows, start, stop)
    ensures start < first <= stop && JustFull(rows, start, first)
  {
    if Full(rows, start, stop - 1) {
      first := FirstFull(rows, start, stop - 1);
    } else {
      first := stop;
    }
  }

  // What is left of a quantum, within the limit, is filled just at a place, or reaches the end.
  ghost predicate Fills(rows: seq<Option<Row>>, s: Snapshot, records: nat, bytes: nat, stop: nat) {
    && s.position <= stop <= s.end && |s.contents| + Bytes(rows, s.position, stop) <= EXPORT_LIMIT
    && (s.position < stop ==>
          && records + Present(rows, s.position, stop - 1) < QUANTUM_RECORDS
          && bytes + Bytes(rows, s.position, stop - 1) < QUANTUM_BYTES)
    && (stop < s.end ==>
          || records + Present(rows, s.position, stop) >= QUANTUM_RECORDS
          || bytes + Bytes(rows, s.position, stop) >= QUANTUM_BYTES)
  }

  lemma FillsOn(rows: seq<Option<Row>>, s: Snapshot, records: nat, bytes: nat, stop: nat)
    requires Fills(rows, s, records, bytes, stop) && s.position < stop
    ensures Goes(rows, s, records, bytes)
    ensures var row := At(rows, s.position);
            Fills(rows, Passed(s, row), records + Count(row), bytes + Width(At(rows, s.position)), stop)
  {
    var row := At(rows, s.position);
    var next := Passed(s, row);
    OneRowLess(rows, s.position, stop);
    assert |next.contents| == |s.contents| + Width(At(rows, s.position));
    if s.position + 1 < stop {
      OneRowLess(rows, s.position, stop - 1);
    } else {
      assert Present(rows, s.position, stop - 1) == 0 && Lines(rows, s.position, stop - 1) == "";
    }
  }

  // The quantum goes just as far.
  lemma {:induction false} AdvanceReaches(
    rows: seq<Option<Row>>, s: Snapshot, records: nat, bytes: nat, stop: nat)
    requires Fills(rows, s, records, bytes, stop)
    ensures Advance(rows, s, records, bytes) == (true, Copied(s, rows, stop))
    decreases s.end - s.position
  {
    if s.position == stop {
      Unmoved(s, rows);
      assert !Goes(rows, s, records, bytes);
      AdvanceStays(rows, s, records, bytes);
    } else {
      var row := At(rows, s.position);
      var next, records', bytes' := Passed(s, row), records + Count(row), bytes + Width(At(rows, s.position));
      FillsOn(rows, s, records, bytes, stop);
      AdvanceReaches(rows, next, records', bytes', stop);
      AdvanceGoes(rows, s, records, bytes);
      PassedAndCopied(s, rows, stop);
    }
  }

  lemma PassedAndCopied(s: Snapshot, rows: seq<Option<Row>>, stop: nat)
    requires s.position < stop
    ensures Copied(Passed(s, At(rows, s.position)), rows, stop) == Copied(s, rows, stop)
  {
    PassedIsCopied(s, rows);
    CopiedTwice(s, rows, s.position + 1, stop);
  }

  lemma OneRowLess(rows: seq<Option<Row>>, start: nat, stop: nat)
    requires start < stop
    ensures Present(rows, start, stop) == Count(At(rows, start)) + Present(rows, start + 1, stop)
    ensures Bytes(rows, start, stop) == Width(At(rows, start)) + Bytes(rows, start + 1, stop)
  {
    BytesConcat(rows, start, start + 1, stop);
    PresentConcat(rows, start, start + 1, stop);
    assert Present(rows, start, start) == 0 && Bytes(rows, start, start) == 0;
  }

  // ----- The copy ---------------------------------------------------------------------

  // A copy by itself, from the freezing of its source on: what there is of the source, with
  // the rows that finishing it would leave, and the snapshot; then the text that waits for
  // the writer, or that the writer has; or the copy was given up for its length.
  datatype Copy =
    | Active(attached: bool, restarting: bool, rows: seq<Option<Row>>, finished: seq<Option<Row>>, snapshot: Snapshot)
    | Ready(contents: string)
    | Written(contents: string)
    | TooLong

  // What can happen to a copy: a turn of it, with or without room at the writer; and that
  // its source is restarted, fed, or stopped, which finishes it unless that is refused.
  datatype Event =
    | Turn(free: bool) | Restarted | Fed(rows: seq<Option<Row>>, finished: seq<Option<Row>>) | Halted(finishes: bool)

  function Next(c: Copy, e: Event): (next: Copy) {
    match c
    case Active(attached, restarting, rows, finished, s) => (
      match e
      case Turn(free) =>
        var (ok, t) := Advance(rows, s, 0, 0);
        if !ok then TooLong
        else if t.position < t.end then c.(snapshot := t)
        else if free then Written(t.contents) else Ready(t.contents)
      case Restarted => if restarting then c.(attached := true, restarting := false) else c
      case Fed(rows', finished') => if attached then c.(rows := rows', finished := finished') else c
      case Halted(finishes) => c.(restarting := false, rows := if finishes then finished else rows))
    case Ready(contents) => if e == Turn(true) then Written(contents) else c
    case _ => c
  }

  // Room at the writer makes a difference only to a text that is ready.
  lemma TurnWithRoom(c: Copy, free: bool)
    requires c.Active?
    ensures var next := Next(c, Turn(false));
            Next(c, Turn(free)) == if free && next.Ready? then Written(next.contents) else next
  {
  }

  function After(c: Copy, events: seq<Event>): (last: Copy) {
    if events == [] then c else Next(After(c, events[..|events| - 1]), events[|events| - 1])
  }

  lemma AfterMore(c: Copy, events: seq<Event>, e: Event)
    ensures After(c, events + [e]) == Next(After(c, events), e)
  {
    assert (events + [e])[..|events|] == events;
  }

  lemma {:induction false} AfterConcat(c: Copy, a: seq<Event>, b: seq<Event>)
    ensures After(c, a + b) == After(After(c, a), b)
  {
    if b == [] {
      assert a + b == a;
    } else {
      AfterConcat(c, a, b[..|b| - 1]);
      assert (a + b)[..|a + b| - 1] == a + b[..|b| - 1];
    }
  }

  // A copy as a freezing leaves it.
  ghost predicate Begun(c: Copy) {
    c.Active? && !c.attached && c.snapshot.position <= c.snapshot.end && |c.snapshot.contents| <= EXPORT_LIMIT
  }

  // The one pass over the rows at the freezing.
  ghost function Whole(c: Copy): (text: string)
    requires c.Active?
  {
    c.snapshot.contents + Lines(c.rows, c.snapshot.position, c.snapshot.end)
  }

  // ----- What is in a text -------------------------------------------------------------

  // Between two marks there is the line of a row that is present, and nothing for one that
  // is gone.
  ghost predicate PieceAt(text: string, marks: seq<nat>, rows: seq<Option<Row>>, start: nat, k: nat)
    requires k + 1 < |marks|
  {
    && marks[k] <= marks[k + 1] <= |text|
    && text[marks[k]..marks[k + 1]] ==
       match At(rows, start + k)
       case None => ""
       case Some(row) => "[" + row.id + "] " + row.text + "\n"
  }

  // A heading, then the lines of the rows from one position to another, one after the other,
  // and nothing else.
  ghost predicate MarksLines(
    text: string, marks: seq<nat>, heading: string, rows: seq<Option<Row>>, start: nat, stop: nat)
  {
    && start <= stop && |marks| == stop - start + 1 && heading <= text
    && marks[0] == |heading| && marks[stop - start] == |text|
    && forall k :: 0 <= k < stop - start ==> PieceAt(text, marks, rows, start, k)
  }

  ghost predicate Holds(text: string, heading: string, rows: seq<Option<Row>>, start: nat, stop: nat) {
    exists marks :: MarksLines(text, marks, heading, rows, start, stop)
  }

  lemma {:induction false} LinesHold(heading: string, rows: seq<Option<Row>>, start: nat, stop: nat)
    returns (marks: seq<nat>)
    requires start <= stop
    ensures MarksLines(heading + Lines(rows, start, stop), marks, heading, rows, start, stop)
  {
    if start == stop {
      assert heading + Lines(rows, start, stop) == heading;
      marks := [|heading|];
    } else {
      var before := LinesHold(heading, rows, start, stop - 1);
      Associates(heading, Lines(rows, start, stop - 1), LineAt(rows, stop - 1));
      marks := MarksMore(heading + Lines(rows, start, stop - 1), before, heading, rows, start, stop - 1);
    }
  }

  lemma MarksMore(
    text: string, before: seq<nat>, heading: string, rows: seq<Option<Row>>, start: nat, stop: nat)
    returns (marks: seq<nat>)
    requires MarksLines(text, before, heading, rows, start, stop)
    ensures MarksLines(text + LineAt(rows, stop), marks, heading, rows, start, stop + 1)
  {
    var last := LineAt(rows, stop);
    marks := before + [|text + last|];
    forall k | 0 <= k < stop + 1 - start ensures PieceAt(text + last, marks, rows, start, k) {
      if k < stop - start {
        assert PieceAt(text, before, rows, start, k);
        SliceStays(text, last, before[k], before[k + 1]);
      } else {
        assert (text + last)[|text|..] == last;
      }
    }
  }

  lemma SliceStays(text: string, more: string, i: nat, j: nat)
    requires i <= j <= |text|
    ensures (text + more)[i..j] == text[i..j]
  {
  }

  // The one pass holds the lines of the rows in its range.
  lemma WholeHolds(c: Copy)
    requires Begun(c)
    ensures Holds(Whole(c), c.snapshot.contents, c.rows, c.snapshot.position, c.snapshot.end)
  {
    var marks := LinesHold(c.snapshot.contents, c.rows, c.snapshot.position, c.snapshot.end);
  }

  // Two texts are to the same effect: they are equal, or both are too long.
  ghost predicate Agrees(a: string, b: string) {
    a == b || (|a| > EXPORT_LIMIT && |b| > EXPORT_LIMIT)
  }

  // What becomes of the copy is the one pass, if that is within the limit.
  ghost predicate Right(c: Copy, last: Copy)
    requires c.Active?
  {
    match last
    case Active(_, _, _, _, _) => true
    case TooLong => |Whole(c)| > EXPORT_LIMIT
    case _ => last.contents == Whole(c) && |Whole(c)| <= EXPORT_LIMIT
  }

  // The copy goes on over the rows as they were, and nothing feeds them.
  ghost predicate Steady(c: Copy, d: Copy)
    requires c.Active?
  {
    && d.Active? && !d.attached && d.rows == c.rows && d.finished == c.finished
    && d.snapshot == Copied(c.snapshot, c.rows, d.snapshot.position)
    && c.snapshot.position <= d.snapshot.position <= d.snapshot.end && |d.snapshot.contents| <= EXPORT_LIMIT
  }

  lemma SteadyAtFirst(c: Copy)
    requires Begun(c)
    ensures Steady(c, c)
  {
    Unmoved(c.snapshot, c.rows);
  }

  // What a turn copies continues a steady copy.
  lemma SteadyAdvance(c: Copy, d: Copy)
    requires Begun(c) && Steady(c, d)
    ensures var (ok, t) := Advance(d.rows, d.snapshot, 0, 0);
            && Steady(c, d.(snapshot := t))
            && (!ok ==> t.position < t.end && |t.contents| + Width(At(c.rows, t.position)) > EXPORT_LIMIT)
  {
    var t := Advance(d.rows, d.snapshot, 0, 0).1;
    AdvanceCopies(d.rows, d.snapshot, 0, 0);
    CopiedTwice(c.snapshot, c.rows, d.snapshot.position, t.position);
  }

  // What is left of the one pass.
  lemma SteadyRest(c: Copy, d: Copy)
    requires Begun(c) && Steady(c, d)
    ensures var s := d.snapshot;
            && Whole(c) == s.contents + Lines(c.rows, s.position, s.end)
            && (s.position >= s.end ==> Whole(c) == s.contents)
            && (s.position < s.end ==> |Whole(c)| >= |s.contents| + Width(At(c.rows, s.position)))
  {
    var s := d.snapshot;
    CopiedTwice(c.snapshot, c.rows, s.position, s.end);
    if s.position < s.end {
      BytesOfLines(c.rows, s.position, s.end);
      OneRowLess(c.rows, s.position, s.end);
    } else {
      assert Lines(c.rows, s.position, s.end) == "";
    }
  }

  // A turn goes on as it should, or ends as it should.
  lemma SteadyTurn(c: Copy, d: Copy, free: bool)
    requires Begun(c) && Steady(c, d)
    ensures Right(c, Next(d, Turn(free)))
    ensures Next(d, Turn(free)).Active? ==> Steady(c, Next(d, Turn(free)))
  {
    SteadyAdvance(c, d);
    SteadyRest(c, d.(snapshot := Advance(d.rows, d.snapshot, 0, 0).1));
  }

  // While the source still waits to be restarted, nothing but turns has had an effect.
  lemma {:induction false} WaitingRun(c: Copy, events: seq<Event>)
    requires Begun(c)
    ensures var last := After(c, events); last.Active? && last.restarting ==> c.restarting && Steady(c, last)
  {
    if events == [] {
      SteadyAtFirst(c);
    } else {
      var most, e := events[..|events| - 1], events[|events| - 1];
      WaitingRun(c, most);
      var d := After(c, most);
      if d.Active? && d.restarting && e.Turn? {
        SteadyTurn(c, d, e.free);
      }
    }
  }

  // ----- Where a copy pauses ----------------------------------------------------------

  // One quantum after the other is filled, up to a place.
  ghost predicate Pauses(rows: seq<Option<Row>>, start: nat, stop: nat)
    decreases stop
  {
    || JustFull(rows, start, stop)
    || exists mid :: start < mid < stop && Pauses(rows, start, mid) && JustFull(rows, mid, stop)
  }

  // Between two turns, an undisturbed copy is at a place short of its end that quanta fill,
  // with a text within the limit.
  ghost predicate PauseAt(c: Copy, p: nat)
    requires c.Active?
  {
    var s := c.snapshot;
    s.position < p < s.end && Pauses(c.rows, s.position, p) &&
    |s.contents| + Bytes(c.rows, s.position, p) <= EXPORT_LIMIT
  }

  lemma {:induction false} PausesAreFull(rows: seq<Option<Row>>, start: nat, stop: nat)
    requires Pauses(rows, start, stop)
    ensures start < stop && Full(rows, start, stop)
    decreases stop
  {
    if !JustFull(rows, start, stop) {
      var mid :| start < mid < stop && Pauses(rows, start, mid) && JustFull(rows, mid, stop);
      PausesAreFull(rows, start, mid);
      FullGrows(rows, start, mid, stop);
    }
  }

  // Where the next turn pauses, if it does.
  ghost predicate PausesNext(d: Copy, p: nat)
    requires d.Active?
  {
    var s := d.snapshot;
    p < s.end && JustFull(d.rows, s.position, p) && |s.contents| + Bytes(d.rows, s.position, p) <= EXPORT_LIMIT
  }

  lemma TurnPauses(d: Copy, p: nat)
    requires d.Active? && |d.snapshot.contents| <= EXPORT_LIMIT && PausesNext(d, p)
    ensures Next(d, Turn(false)) == d.(snapshot := Copied(d.snapshot, d.rows, p))
  {
    AdvanceReaches(d.rows, d.snapshot, 0, 0, p);
  }

  // A turn that pauses has moved on.
  lemma TurnMoves(d: Copy, free: bool)
    requires d.Active? && |d.snapshot.contents| <= EXPORT_LIMIT && Next(d, Turn(free)).Active?
    ensures var s, t := d.snapshot, Next(d, Turn(free)).snapshot; s.position < t.position < t.end == s.end
  {
    AdvanceCopies(d.rows, d.snapshot, 0, 0);
    Unmoved(d.snapshot, d.rows);
  }

  lemma PausesAfterTurn(d: Copy)
    requires d.Active? && |d.snapshot.contents| <= EXPORT_LIMIT && Next(d, Turn(false)).Active?
    ensures PausesNext(d, Next(d, Turn(false)).snapshot.position)
  {
    var s, t := d.snapshot, Next(d, Turn(false)).snapshot;
    AdvanceCopies(d.rows, s, 0, 0);
    Unmoved(s, d.rows);
    CopiedSize(s, d.rows, t.position);
    var p := FirstFull(d.rows, s.position, t.position);
    FullGrows(d.rows, s.position, p, t.position);
    TurnPauses(d, p);
  }

  // The first turn of a copy that pauses next.
  lemma FirstPause(c: Copy, p: nat)
    requires Begun(c) && PausesNext(c, p)
    ensures After(c, [Turn(true)]) == c.(snapshot := Copied(c.snapshot, c.rows, p)) && Steady(c, After(c, [Turn(true)]))
  {
    TurnPauses(c, p);
    TurnWithRoom(c, true);
    CopiedSize(c.snapshot, c.rows, p);
    assert [Turn(true)][..0] == [];
  }

  // The turn that freezes the source settles the copy when no quantum is full, within the
  // limit, short of the end.
  ghost predicate FirstTurnSettles(c: Copy)
    requires c.Active?
  {
    var s := c.snapshot;
    forall p :: s.position < p < s.end ==>
      !(Full(c.rows, s.position, p) && |s.contents| + Bytes(c.rows, s.position, p) <= EXPORT_LIMIT)
  }

  // It does so exactly then; and then there is no pause.
  lemma FirstTurnSettlesIt(c: Copy)
    requires Begun(c)
    ensures FirstTurnSettles(c) <==> !Next(c, Turn(false)).Active?
    ensures FirstTurnSettles(c) <==> forall p :: !PauseAt(c, p)
  {
    var s := c.snapshot;
    if Next(c, Turn(false)).Active? {
      PausesAfterTurn(c);
      var p := Next(c, Turn(false)).snapshot.position;
      assert PauseAt(c, p);
    } else if p :| s.position < p < s.end && Full(c.rows, s.position, p) &&
                   |s.contents| + Bytes(c.rows, s.position, p) <= EXPORT_LIMIT {
      var first := FirstFull(c.rows, s.position, p);
      FullGrows(c.rows, s.position, first, p);
      TurnPauses(c, first);
    }
    forall p | PauseAt(c, p) ensures !FirstTurnSettles(c) {
      PausesAreFull(c.rows, s.position, p);
    }
  }

  // ----- Exactly when every schedule is right -----------------------------------------

  // The copy finished at a pause.
  ghost function FinishedAt(c: Copy, p: nat): (d: Copy)
    requires c.Active?
  {
    c.(rows := c.finished, snapshot := Copied(c.snapshot, c.rows, p))
  }

  // At no pause is the source one that waits to be restarted, or one that finishing would
  // give a text to another effect.
  ghost predicate Safe(c: Copy)
    requires c.Active?
  {
    forall p :: PauseAt(c, p) ==> !c.restarting && Agrees(Whole(c), Whole(FinishedAt(c, p)))
  }

  // A copy under way that has not been stopped, or was finished at a pause.
  ghost predicate OnCourse(c: Copy, d: Copy, p: nat)
    requires c.Active?
  {
    && d.Active? && !d.restarting && PauseAt(c, p)
    && ((d.snapshot.position == p && Steady(c, d)) || Steady(FinishedAt(c, p), d))
  }

  lemma FinishedBegins(c: Copy, p: nat)
    requires Begun(c) && PauseAt(c, p)
    ensures Begun(FinishedAt(c, p))
  {
    CopiedSize(c.snapshot, c.rows, p);
  }

  lemma AgreeingIsRight(c: Copy, h: Copy, last: Copy)
    requires c.Active? && h.Active? && Agrees(Whole(c), Whole(h)) && Right(h, last)
    ensures Right(c, last)
  {
  }

  lemma DisagreeingIsWrong(c: Copy, h: Copy, last: Copy)
    requires c.Active? && h.Active? && !Agrees(Whole(c), Whole(h)) && !last.Active? && Right(h, last)
    ensures !Right(c, last)
  {
  }

  // A turn of a steady copy leads from pause to pause.
  lemma TurnToPause(c: Copy, d: Copy, free: bool)
    requires Begun(c) && Steady(c, d) && (d == c || PauseAt(c, d.snapshot.position)) && Next(d, Turn(free)).Active?
    ensures Steady(c, Next(d, Turn(free))) && PauseAt(c, Next(d, Turn(free)).snapshot.position)
  {
    var next := Next(d, Turn(free));
    SteadyTurn(c, d, free);
    TurnWithRoom(d, free);
    PausesAfterTurn(d);
    var from, mid, p := c.snapshot.position, d.snapshot.position, next.snapshot.position;
    CopiedSize(c.snapshot, c.rows, p);
    assert JustFull(c.rows, mid, p);
    assert Pauses(c.rows, from, p) by {
      if d != c {
        assert from < mid < p && Pauses(c.rows, from, mid) && JustFull(c.rows, mid, p);
      }
    }
  }

  // Each step of a copy on its course keeps it there, or ends it as it should.
  lemma CourseStep(c: Copy, d: Copy, p: nat, e: Event) returns (p': nat)
    requires Begun(c) && Safe(c) && OnCourse(c, d, p)
    ensures Right(c, Next(d, e)) && (Next(d, e).Active? ==> OnCourse(c, Next(d, e), p'))
  {
    p' := p;
    FinishedBegins(c, p);
    if e.Turn? {
      if d.snapshot.position == p && Steady(c, d) {
        SteadyTurn(c, d, e.free);
        if Next(d, e).Active? {
          TurnToPause(c, d, e.free);
          p' := Next(d, e).snapshot.position;
        }
      } else {
        SteadyTurn(FinishedAt(c, p), d, e.free);
        AgreeingIsRight(c, FinishedAt(c, p), Next(d, e));
      }
    } else if e == Halted(true) && d.snapshot.position == p && Steady(c, d) {
      SteadyAtFirst(FinishedAt(c, p));
      assert Next(d, e) == FinishedAt(c, p).(restarting := false);
    }
  }

  lemma {:induction false} SafeRun(c: Copy, events: seq<Event>) returns (p: nat)
    requires Begun(c) && Safe(c) && events != [] && events[0].Turn?
    ensures Right(c, After(c, events)) && (After(c, events).Active? ==> OnCourse(c, After(c, events), p))
  {
    var most, e := events[..|events| - 1], events[|events| - 1];
    if most == [] {
      SteadyAtFirst(c);
      SteadyTurn(c, c, e.free);
      p := 0;
      if Next(c, e).Active? {
        TurnToPause(c, c, e.free);
        p := Next(c, e).snapshot.position;
      }
    } else {
      p := SafeRun(c, most);
      var d := After(c, most);
      if d.Active? {
        p := CourseStep(c, d, p, e);
      }
    }
  }

  ghost predicate AllTurns(events: seq<Event>) {
    events != [] && forall k :: 0 <= k < |events| ==> events[k].Turn?
  }

  // Turns alone bring a copy to each of its pauses.
  lemma {:induction false} TurnsReach(c: Copy, p: nat) returns (events: seq<Event>)
    requires Begun(c) && PauseAt(c, p)
    ensures AllTurns(events) && After(c, events) == c.(snapshot := Copied(c.snapshot, c.rows, p))
    decreases p
  {
    var s := c.snapshot;
    if JustFull(c.rows, s.position, p) {
      TurnPauses(c, p);
      events := [Turn(false)];
      assert events[..0] == [];
    } else {
      var mid :| s.position < mid < p && Pauses(c.rows, s.position, mid) && JustFull(c.rows, mid, p);
      FullGrows(c.rows, s.position, mid, p);
      events := TurnsReach(c, mid);
      var d := c.(snapshot := Copied(s, c.rows, mid));
      CopiedTwice(s, c.rows, mid, p);
      CopiedSize(s, c.rows, mid);
      BytesConcat(c.rows, s.position, mid, p);
      TurnPauses(d, p);
      AfterMore(c, events, Turn(false));
      events := events + [Turn(false)];
    }
  }

  // Rows that a restart can bring so that the copy goes wrong: none, if there is
  // text left to copy; one at the position of the copy, if there is not.
  function Spoiling(rows: seq<Option<Row>>, position: nat, end: nat): (spoiling: seq<Option<Row>>) {
    if Lines(rows, position, end) != "" then [] else OneRow(position)
  }

  function OneRow(position: nat): (rows: seq<Option<Row>>) {
    seq(position, _ => None) + [Some(Row("", ""))]
  }

  // A source that waits to be restarted while its copy is under way is restarted and fed,
  // and what comes of the copy is not the one pass.
  lemma RestartSpoils(c: Copy, d: Copy)
    requires Begun(c) && Steady(c, d) && d.restarting && d.snapshot.position < d.snapshot.end
    ensures var rows := Spoiling(d.rows, d.snapshot.position, d.snapshot.end);
            var last := Next(Next(Next(d, Restarted), Fed(rows, rows)), Turn(true));
            (last.Written? || last.TooLong?) && !Right(c, last)
  {
    var s := d.snapshot;
    SteadyRest(c, d);
    if Lines(d.rows, s.position, s.end) != "" {
      NothingLeft([], s, 0, 0);
      assert |Whole(c)| > |s.contents|;
    } else {
      assert Whole(c) == s.contents;
      OneLine(s);
      var rows := OneRow(s.position);
      var fed := Active(true, false, rows, rows, s);
      assert Next(Next(d, Restarted), Fed(rows, rows)) == fed;
      var (ok, t) := Advance(rows, s, 0, 0);
      assert Next(fed, Turn(true)) == if ok then Written(t.contents) else TooLong;
    }
  }

  // The one row at the position of a copy makes the text longer, or too long.
  lemma OneLine(s: Snapshot)
    requires s.position < s.end && |s.contents| <= EXPORT_LIMIT
    ensures var (ok, t) := Advance(OneRow(s.position), s, 0, 0);
            ok ==> t.position == t.end == s.end && |t.contents| > |s.contents|
  {
    var rows := OneRow(s.position);
    var line := Line(Row("", ""));
    assert |line| == 4 && LineAt(rows, s.position) == line;
    if |line| <= EXPORT_LIMIT - |s.contents| {
      NothingLeft(rows, s.(position := s.position + 1, contents := s.contents + line, copied := s.copied + 1), 1, 4);
    }
  }

  // Where no rows are, a quantum reaches the end.
  lemma {:induction false} NothingLeft(rows: seq<Option<Row>>, s: Snapshot, records: nat, bytes: nat)
    requires |rows| <= s.position <= s.end && records < QUANTUM_RECORDS && bytes < QUANTUM_BYTES
    ensures Advance(rows, s, records, bytes) == (true, s.(position := s.end))
    decreases s.end - s.position
  {
    if s.position < s.end {
      NothingLeft(rows, s.(position := s.position + 1), records, bytes);
    }
  }

  // Left to itself, a copy ends: as many turns as it has rows are enough.
  lemma {:induction false} TurnsEnd(c: Copy, turns: nat)
    requires Begun(c) && turns > c.snapshot.end - c.snapshot.position
    ensures var last := After(c, seq(turns, _ => Turn(true))); !last.Active? && Right(c, last)
  {
    TurnsMove(c, turns);
  }

  lemma {:induction false} TurnsMove(c: Copy, turns: nat)
    requires Begun(c)
    ensures var last := After(c, seq(turns, _ => Turn(true)));
            && Right(c, last)
            && (last.Active? ==> Steady(c, last) && last.snapshot.position >= c.snapshot.position + turns)
    ensures var last := After(c, seq(turns, _ => Turn(true)));
            last.Active? && turns > 0 ==> last.snapshot.position < last.snapshot.end
  {
    if turns == 0 {
      assert Copied(c.snapshot, c.rows, c.snapshot.position) == c.snapshot;
    } else {
      TurnsMove(c, turns - 1);
      var before := seq(turns - 1, _ => Turn(true));
      assert seq(turns, _ => Turn(true)) == before + [Turn(true)];
      AfterMore(c, before, Turn(true));
      var d := After(c, before);
      if d.Active? {
        SteadyTurn(c, d, true);
        AdvanceCopies(d.rows, d.snapshot, 0, 0);
      }
    }
  }

  // A copy that is unsafe at some pause is stopped there, and goes on.
  lemma StopSpoils(c: Copy, p: nat) returns (events: seq<Event>)
    requires Begun(c) && PauseAt(c, p) && !c.restarting && !Agrees(Whole(c), Whole(FinishedAt(c, p)))
    ensures events != [] && events[0].Turn? && !Right(c, After(c, events))
  {
    var turns := TurnsReach(c, p);
    var h := FinishedAt(c, p);
    FinishedBegins(c, p);
    AfterMore(c, turns, Halted(true));
    var count := h.snapshot.end - p + 1;
    var rest := seq(count, _ => Turn(true));
    TurnsEnd(h, count);
    DisagreeingIsWrong(c, h, After(h, rest));
    AfterConcat(c, turns + [Halted(true)], rest);
    events := turns + [Halted(true)] + rest;
  }

  // A copy whose source waits to be restarted, and that pauses, is spoilt at its first pause.
  lemma FirstPauseSpoils(c: Copy) returns (events: seq<Event>)
    requires Begun(c) && c.restarting && !FirstTurnSettles(c)
    ensures events != [] && events[0].Turn? && !Right(c, After(c, events))
  {
    FirstTurnSettlesIt(c);
    SteadyAtFirst(c);
    var d := Next(c, Turn(false));
    TurnToPause(c, c, false);
    RestartSpoils(c, d);
    var rows := Spoiling(d.rows, d.snapshot.position, d.snapshot.end);
    var frozen := [Turn(false)];
    assert frozen[..0] == [];
    AfterMore(c, frozen, Restarted);
    AfterMore(c, frozen + [Restarted], Fed(rows, rows));
    AfterMore(c, frozen + [Restarted] + [Fed(rows, rows)], Turn(true));
    events := frozen + [Restarted] + [Fed(rows, rows)] + [Turn(true)];
  }

  // The exact condition. Every schedule, which begins with the turn that froze the source,
  // makes the copy the one pass exactly when at no pause of the copy the source is waiting to
  // be restarted, or would by being finished change the effect of what is left.
  lemma RightOnEverySchedule(c: Copy)
    requires Begun(c)
    ensures (forall events: seq<Event> :: events != [] && events[0].Turn? ==> Right(c, After(c, events))) <==> Safe(c)
  {
    if Safe(c) {
      forall events: seq<Event> | events != [] && events[0].Turn? ensures Right(c, After(c, events)) {
        var p := SafeRun(c, events);
      }
    } else {
      var p :| PauseAt(c, p) && (c.restarting || !Agrees(Whole(c), Whole(FinishedAt(c, p))));
      var events;
      if c.restarting {
        FirstTurnSettlesIt(c);
        events := FirstPauseSpoils(c);
      } else {
        events := StopSpoils(c, p);
      }
      assert events != [] && events[0].Turn? && !Right(c, After(c, events));
    }
  }

  // A copy as a freezing leaves it, of rows that finishing changes as it can.
  ghost predicate Frozen(c: Copy) {
    Begun(c) && c.snapshot.end <= |c.rows| && Finishes(c.rows, c.finished)
  }

  // A row that the first turn leaves to a later one.
  ghost predicate LeftForLater(c: Copy, i: nat)
    requires c.Active?
  {
    c.snapshot.position < i < c.snapshot.end && Full(c.rows, c.snapshot.position, i)
  }

  // For a pass within the limit, the condition is about single rows: each that is left for a
  // later turn is of a source that does not wait to be restarted, and one that finishing
  // leaves as it is, in its place.
  lemma SafeRowByRow(c: Copy)
    requires Frozen(c) && |Whole(c)| <= EXPORT_LIMIT
    ensures Safe(c) <==> forall i :: LeftForLater(c, i) ==> !c.restarting && At(c.finished, i) == At(c.rows, i)
  {
    if Safe(c) {
      forall i | LeftForLater(c, i) ensures !c.restarting && At(c.finished, i) == At(c.rows, i) {
        var p := FirstFull(c.rows, c.snapshot.position, i);
        FittingPause(c, p);
      }
    }
    if forall i :: LeftForLater(c, i) ==> !c.restarting && At(c.finished, i) == At(c.rows, i) {
      forall p | PauseAt(c, p) ensures !c.restarting && Agrees(Whole(c), Whole(FinishedAt(c, p))) {
        LaterRows(c, p);
        FittingPause(c, p);
      }
    }
  }

  lemma LaterRows(c: Copy, p: nat)
    requires Begun(c) && PauseAt(c, p)
    ensures forall i :: p <= i < c.snapshot.end ==> LeftForLater(c, i)
  {
    PausesAreFull(c.rows, c.snapshot.position, p);
    forall i | p <= i < c.snapshot.end ensures LeftForLater(c, i) {
      FullGrows(c.rows, c.snapshot.position, p, i);
    }
  }

  // A pass within the limit pauses wherever a quantum has filled; and there finishing is to
  // the same effect exactly if it changes no row that is left.
  lemma FittingPause(c: Copy, p: nat)
    requires Frozen(c) && |Whole(c)| <= EXPORT_LIMIT && c.snapshot.position < p < c.snapshot.end
    ensures Pauses(c.rows, c.snapshot.position, p) ==> PauseAt(c, p)
    ensures Agrees(Whole(c), Whole(FinishedAt(c, p))) <==> SameRows(c.rows, c.finished, p, c.snapshot.end)
  {
    var s := c.snapshot;
    var done := s.contents + Lines(c.rows, s.position, p);
    LinesConcat(c.rows, s.position, p, s.end);
    BytesOfLines(c.rows, s.position, p);
    Associates(s.contents, Lines(c.rows, s.position, p), Lines(c.rows, p, s.end));
    FinishShows(c.rows, c.finished, p, s.end);
    var left, left' := Lines(c.rows, p, s.end), Lines(c.finished, p, s.end);
    assert Whole(c) == done + left && Whole(FinishedAt(c, p)) == done + left';
    Cancel(done, left, left');
  }

  lemma Cancel(a: string, b: string, c: string)
    ensures a + b == a + c <==> b == c
  {
    assert (a + b)[|a|..] == b && (a + c)[|a|..] == c;
  }
}
