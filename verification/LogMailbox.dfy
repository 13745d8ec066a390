/**
 The bounded mailbox between a producer and a consumer: a ring of packets that keeps their
 order, and that reports every loss downstream exactly once.
 */
module LogMailbox {
  import opened Arithmetic
  import opened Utf8

  const MAX_UINT64: nat := 0xFFFF_FFFF_FFFF_FFFF

  type Counter = n: nat | n <= MAX_UINT64

  // A message as a producer offers it: bytes of a stream, or a grouped record.
  datatype Message = Message(bytes: seq<Byte>, record: bool)

  // Known losses, in counts that saturate.
  datatype Loss = Loss(batches: Counter, bytes: Counter, records: Counter, recordsUnknown: bool)

  const NO_LOSS := Loss(0, 0, 0, false)

  datatype Packet = Packet(message: Message, sequence: nat, lossBefore: Loss)

  // What a consumer takes: a packet, or the end of the stream with what was lost before it.
  datatype Taken = Data(packet: Packet) | End(lossBefore: Loss)

  datatype TakeResult = Got(item: Taken) | Empty | TakeBusy

  datatype Policy = Backpressure | DropOldest | DropNewest

  datatype OfferResult = Accepted | WouldBlock | Busy | Dropped | Closed | Exhausted

  // ----- Losses -----------------------------------------------------------------------

  function Add(a: Counter, b: Counter): (sum: Counter) {
    if b <= MAX_UINT64 - a then a + b else MAX_UINT64
  }

  function Merge(a: Loss, b: Loss): (sum: Loss) {
    Loss(Add(a.batches, b.batches), Add(a.bytes, b.bytes), Add(a.records, b.records),
         a.recordsUnknown || b.recordsUnknown)
  }

  // Although they saturate, losses add up in any order.
  lemma MergeLaws(a: Loss, b: Loss, c: Loss)
    ensures Merge(a, b) == Merge(b, a) && Merge(Merge(a, b), c) == Merge(a, Merge(b, c))
    ensures Merge(a, NO_LOSS) == a && Merge(NO_LOSS, a) == a
  {
  }

  function LossOf(m: Message): (loss: Loss) {
    Loss(1, if |m.bytes| <= MAX_UINT64 then |m.bytes| else MAX_UINT64, if m.record then 1 else 0, !m.record)
  }

  // The losses that packets report.
  function Reported(packets: seq<Packet>): (loss: Loss) {
    if packets == [] then NO_LOSS
    else Merge(Reported(packets[..|packets| - 1]), packets[|packets| - 1].lossBefore)
  }

  lemma ReportedMore(packets: seq<Packet>, p: Packet)
    ensures Reported(packets + [p]) == Merge(Reported(packets), p.lossBefore)
  {
    assert (packets + [p])[..|packets|] == packets;
  }

  lemma {:induction false} ReportedConcat(a: seq<Packet>, b: seq<Packet>)
    ensures Reported(a + b) == Merge(Reported(a), Reported(b))
  {
    if b == [] {
      assert a + b == a;
      MergeLaws(Reported(a), NO_LOSS, NO_LOSS);
    } else {
      var init, last := b[..|b| - 1], b[|b| - 1];
      assert a + b == (a + init) + [last];
      ReportedMore(a + init, last);
      ReportedConcat(a, init);
      MergeLaws(Reported(a), Reported(init), last.lossBefore);
    }
  }

  function WithLoss(p: Packet, loss: Loss): (q: Packet) {
    p.(lossBefore := Merge(p.lossBefore, loss))
  }

  // A loss put on the first of some packets is reported with them.
  lemma ReportedHead(packets: seq<Packet>, loss: Loss)
    requires packets != []
    ensures Reported([WithLoss(packets[0], loss)] + packets[1..]) == Merge(Reported(packets), loss)
  {
    var head, rest := packets[0], packets[1..];
    assert packets == [head] + rest;
    ReportedConcat([head], rest);
    ReportedConcat([WithLoss(head, loss)], rest);
    ReportedOne(head);
    ReportedOne(WithLoss(head, loss));
    MergeLaws(head.lossBefore, loss, Reported(rest));
    MergeLaws(head.lossBefore, Reported(rest), loss);
    MergeLaws(loss, Reported(rest), loss);
  }

  lemma ReportedOne(p: Packet)
    ensures Reported([p]) == p.lossBefore
  {
    assert [p][..0] == [];
    MergeLaws(p.lossBefore, NO_LOSS, NO_LOSS);
  }

  // ----- The ring ---------------------------------------------------------------------

  // A position in a ring, for one that runs past its end at most once.
  function Wrap(i: nat, n: nat): (w: nat)
    requires i < 2 * n
    ensures w < n
  {
    if i < n then i else i - n
  }

  lemma WrapIsRemainder(i: nat, n: nat)
    requires i < 2 * n
    ensures Wrap(i, n) == i % n
  {
    DivUnique(i, n, if i < n then 0 else 1, Wrap(i, n));
  }

  // The packets of a ring from its head on.
  function Window(slots: seq<Packet>, head: nat, count: nat): (window: seq<Packet>)
    requires head < |slots| && count <= |slots|
    ensures |window| == count
  {
    if count == 0 then []
    else Window(slots, head, count - 1) + [slots[Wrap(head + count - 1, |slots|)]]
  }

  lemma {:induction false} WindowPops(slots: seq<Packet>, head: nat, count: nat)
    requires head < |slots| && 0 < count <= |slots|
    ensures Window(slots, head, count) == [slots[head]] + Window(slots, Wrap(head + 1, |slots|), count - 1)
  {
    if count > 1 {
      WindowPops(slots, head, count - 1);
    }
  }

  // Slots beyond the window do not matter to it.
  lemma {:induction false} WindowKeeps(slots: seq<Packet>, head: nat, count: nat, at: nat, p: Packet)
    requires head < |slots| && count <= at < |slots|
    ensures Window(slots[Wrap(head + at, |slots|) := p], head, count) == Window(slots, head, count)
  {
    if count > 0 {
      WindowKeeps(slots, head, count - 1, at, p);
    }
  }

  lemma {:induction false} WindowHead(slots: seq<Packet>, head: nat, count: nat, p: Packet)
    requires head < |slots| && 0 < count <= |slots|
    ensures Window(slots, head, count)[0] == slots[head]
    ensures Window(slots[head := p], head, count) == [p] + Window(slots, head, count)[1..]
  {
    if count > 1 {
      WindowHead(slots, head, count - 1, p);
    }
  }

  class Ring {
    const slots: array<Packet>
    var head: nat
    var count: nat

    ghost predicate Valid()
      reads this, slots
    {
      slots.Length > 0 && head < slots.Length && count <= slots.Length
    }

    // The packets queued, oldest first.
    function Queue(): (queue: seq<Packet>)
      requires Valid()
      reads this, slots
      ensures |queue| == count
    {
      Window(slots[..], head, count)
    }

    constructor (capacity: nat)
      requires capacity > 0
      ensures Valid() && Queue() == [] && slots.Length == capacity && fresh(slots)
    {
      slots := new Packet[capacity](_ => Packet(Message([], false), 0, NO_LOSS));
      head, count := 0, 0;
    }

    method Pop() returns (oldest: Packet)
      requires Valid() && count > 0
      modifies this
      ensures Valid() && old(Queue()) == [oldest] + Queue()
    {
      WindowPops(slots[..], head, count);
      oldest := slots[head];
      head := Wrap(head + 1, slots.Length);
      count := count - 1;
    }

    method Push(p: Packet)
      requires Valid() && count < slots.Length
      modifies this, slots
      ensures Valid() && Queue() == old(Queue()) + [p]
    {
      WindowKeeps(slots[..], head, count, count, p);
      ghost var after := slots[..][Wrap(head + count, slots.Length) := p];
      slots[Wrap(head + count, slots.Length)] := p;
      count := count + 1;
      assert slots[..] == after;
    }

    // A loss is reported with the oldest packet.
    method Charge(loss: Loss)
      requires Valid() && count > 0
      modifies slots
      ensures Valid() && Queue() == [WithLoss(old(Queue())[0], loss)] + old(Queue())[1..]
    {
      ghost var before := slots[..];
      WindowHead(before, head, count, WithLoss(slots[head], loss));
      slots[head] := WithLoss(slots[head], loss);
      assert slots[..] == before[head := WithLoss(before[head], loss)];
    }
  }

  // ----- What packets keep of the messages accepted -----------------------------------

  function LastSequence(packets: seq<Packet>): (sequence: nat) {
    if packets == [] then 0 else packets[|packets| - 1].sequence
  }

  // Packets carry the messages of their sequence numbers, which rise.
  predicate Ordered(packets: seq<Packet>, log: seq<Message>) {
    packets == [] ||
    var init, last := packets[..|packets| - 1], packets[|packets| - 1];
    Ordered(init, log) && LastSequence(init) < last.sequence <= |log| && last.message == log[last.sequence - 1]
  }

  lemma {:induction false} OrderedMeans(packets: seq<Packet>, log: seq<Message>, j: nat, k: nat)
    requires Ordered(packets, log) && j <= k < |packets|
    ensures 1 <= packets[k].sequence <= |log| && packets[k].message == log[packets[k].sequence - 1]
    ensures j < k ==> packets[j].sequence < packets[k].sequence
  {
    var init := packets[..|packets| - 1];
    if k < |packets| - 1 {
      OrderedMeans(init, log, j, k);
    } else if j < k {
      OrderedMeans(init, log, j, k - 1);
    }
  }

  function Messages(packets: seq<Packet>): (messages: seq<Message>)
    ensures |messages| == |packets|
  {
    if packets == [] then [] else Messages(packets[..|packets| - 1]) + [packets[|packets| - 1].message]
  }

  // Without the policy that drops the oldest, every accepted message is kept.
  predicate Complete(packets: seq<Packet>, log: seq<Message>) {
    Messages(packets) == log
  }

  lemma {:induction false} OrderedLonger(packets: seq<Packet>, log: seq<Message>, m: Message)
    requires Ordered(packets, log)
    ensures Ordered(packets, log + [m])
  {
    if packets != [] {
      OrderedLonger(packets[..|packets| - 1], log, m);
    }
  }

  lemma {:induction false} LastIsInLog(packets: seq<Packet>, log: seq<Message>)
    requires Ordered(packets, log)
    ensures LastSequence(packets) <= |log|
  {
  }

  // ----- Where the losses are ---------------------------------------------------------

  function LossSum(lost: seq<Message>): (loss: Loss) {
    if lost == [] then NO_LOSS else Merge(LossSum(lost[..|lost| - 1]), LossOf(lost[|lost| - 1]))
  }

  lemma {:induction false} LossSumConcat(a: seq<Message>, b: seq<Message>)
    ensures LossSum(a + b) == Merge(LossSum(a), LossSum(b))
  {
    if b == [] {
      assert a + b == a;
      MergeLaws(LossSum(a), NO_LOSS, NO_LOSS);
    } else {
      var init, last := b[..|b| - 1], b[|b| - 1];
      LossSumConcat(a, init);
      assert (a + b)[..|a + b| - 1] == a + init;
      MergeLaws(LossSum(a), LossSum(init), LossOf(last));
    }
  }

  lemma LossSumOne(m: Message)
    ensures LossSum([m]) == LossOf(m)
  {
    assert [m][..0] == [];
    MergeLaws(LossOf(m), NO_LOSS, NO_LOSS);
  }

  // The bytes of some messages, and how many of these are records.
  function BytesIn(messages: seq<Message>): (bytes: nat) {
    if messages == [] then 0 else |messages[0].bytes| + BytesIn(messages[1..])
  }

  function RecordsIn(messages: seq<Message>): (records: nat) {
    if messages == [] then 0 else (if messages[0].record then 1 else 0) + RecordsIn(messages[1..])
  }

  function Saturated(n: nat): (count: nat) {
    if n < 0xFFFF_FFFF_FFFF_FFFF then n else 0xFFFF_FFFF_FFFF_FFFF
  }

  // A loss counts messages, their bytes and the records among them, as far as 64 bits go; how
  // many records there are is unknown exactly if one of them is a piece of a byte stream.
  ghost predicate Totals(loss: Loss, lost: seq<Message>) {
    && loss.batches == Saturated(|lost|) && loss.bytes == Saturated(BytesIn(lost))
    && loss.records == Saturated(RecordsIn(lost))
    && (loss.recordsUnknown <==> exists k :: 0 <= k < |lost| && !lost[k].record)
  }

  lemma {:induction false} LossSumTotals(lost: seq<Message>)
    ensures Totals(LossSum(lost), lost)
  {
    if lost != [] {
      LossSumTotals(lost[1..]);
      assert lost == [lost[0]] + lost[1..];
      LossSumConcat([lost[0]], lost[1..]);
      LossSumOne(lost[0]);
      assert LossSum(lost).recordsUnknown <==> !lost[0].record || LossSum(lost[1..]).recordsUnknown;
      if k :| 0 <= k < |lost[1..]| && !lost[1..][k].record {
        assert !lost[k + 1].record;
      }
      if k :| 1 <= k < |lost| && !lost[k].record {
        assert !lost[1..][k - 1].record;
      }
    }
  }

  // `at` has the places of some messages among all that were given: what is behind the
  // first k of them.
  function Behind(at: seq<nat>, k: nat): (from: nat)
    requires k <= |at|
  {
    if k == 0 then 0 else at[k - 1] + 1
  }

  // A packet is the message given at its place, and reports exactly what was given between
  // the packet before it and itself, and lost.
  predicate PlacedAt(p: Packet, from: nat, at: nat, given: seq<Message>) {
    from <= at < |given| && p.message == given[at] && p.lossBefore == LossSum(given[from..at])
  }

  predicate Placed(packets: seq<Packet>, at: seq<nat>, given: seq<Message>) {
    |at| == |packets| &&
    forall k {:trigger Behind(at, k)} :: 0 <= k < |packets| ==> PlacedAt(packets[k], Behind(at, k), at[k], given)
  }

  // What is lost behind the last packet is owed.
  predicate Told(packets: seq<Packet>, at: seq<nat>, given: seq<Message>, owed: Loss) {
    Placed(packets, at, given) && Behind(at, |at|) <= |given| && LossSum(given[Behind(at, |at|)..]) == owed
  }

  predicate Rising(at: seq<nat>, size: nat) {
    forall k {:trigger Behind(at, k)} :: 0 <= k < |at| ==> Behind(at, k) <= at[k] < size
  }

  // What was given at no place of `at`.
  function Missing(at: seq<nat>, given: seq<Message>): (lost: seq<Message>)
    requires Rising(at, |given|)
  {
    assert at == [] || Behind(at, |at| - 1) <= at[|at| - 1] < |given|;
    MissingBefore(at, given) + given[Behind(at, |at|)..]
  }

  function MissingBefore(at: seq<nat>, given: seq<Message>): (lost: seq<Message>)
    requires Rising(at, |given|)
  {
    if at == [] then []
    else
      var init := at[..|at| - 1];
      assert forall k {:trigger Behind(init, k)} :: 0 <= k < |init| ==> Behind(init, k) == Behind(at, k);
      assert Behind(at, |at| - 1) == Behind(init, |init|);
      MissingBefore(init, given) + given[Behind(init, |init|)..at[|at| - 1]]
  }

  lemma PlacedInit(packets: seq<Packet>, at: seq<nat>, given: seq<Message>)
    requires Placed(packets, at, given) && packets != []
    ensures Placed(packets[..|packets| - 1], at[..|at| - 1], given)
    ensures PlacedAt(packets[|packets| - 1], Behind(at[..|at| - 1], |at| - 1), at[|at| - 1], given)
  {
    var init := at[..|at| - 1];
    assert forall k {:trigger Behind(init, k)} :: 0 <= k <= |init| ==> Behind(init, k) == Behind(at, k);
    var last := |packets| - 1;
    assert PlacedAt(packets[last], Behind(at, last), at[last], given);
  }

  lemma PlacedRises(packets: seq<Packet>, at: seq<nat>, given: seq<Message>)
    requires Placed(packets, at, given)
    ensures Rising(at, |given|) && Behind(at, |at|) <= |given|
  {
    forall k | 0 <= k < |at| ensures Behind(at, k) <= at[k] < |given| {
      assert PlacedAt(packets[k], Behind(at, k), at[k], given);
    }
  }

  // The packets report what is missing before the last.
  lemma {:induction false} PlacedReports(packets: seq<Packet>, at: seq<nat>, given: seq<Message>)
    requires Placed(packets, at, given)
    ensures Rising(at, |given|) && Behind(at, |at|) <= |given|
    ensures Reported(packets) == LossSum(MissingBefore(at, given))
  {
    PlacedRises(packets, at, given);
    if packets != [] {
      var init, a := at[..|at| - 1], at[|at| - 1];
      PlacedInit(packets, at, given);
      PlacedReports(packets[..|packets| - 1], init, given);
      LossSumConcat(MissingBefore(init, given), given[Behind(init, |init|)..a]);
    }
  }

  // Of some messages, some are kept and the others are missing, each once.
  ghost predicate Parts(all: seq<Message>, kept: seq<Message>, missing: seq<Message>) {
    multiset(all) == multiset(kept) + multiset(missing)
  }

  lemma PartsMore(
    given: seq<Message>, from: nat, a: nat, kept: seq<Message>, missing: seq<Message>,
    kept': seq<Message>, missing': seq<Message>)
    requires from <= a < |given| && Parts(given[..from], kept, missing)
    requires kept' == kept + [given[a]] && missing' == missing + given[from..a]
    ensures Parts(given[..a + 1], kept', missing')
  {
    assert given[..a + 1] == given[..from] + given[from..a] + [given[a]];
  }

  // What was given at the places of `at`.
  function Found(at: seq<nat>, given: seq<Message>): (found: seq<Message>)
    requires Rising(at, |given|)
  {
    if at == [] then []
    else
      RisingInit(at, |given|);
      Found(at[..|at| - 1], given) + [given[at[|at| - 1]]]
  }

  lemma RisingInit(at: seq<nat>, size: nat)
    requires Rising(at, size) && at != []
    ensures var init, a := at[..|at| - 1], at[|at| - 1];
            Rising(init, size) && Behind(init, |init|) <= a < size && Behind(at, |at|) == a + 1
  {
    var init := at[..|at| - 1];
    assert forall k {:trigger Behind(init, k)} :: 0 <= k <= |init| ==> Behind(init, k) == Behind(at, k);
  }

  lemma {:induction false} RisingParts(at: seq<nat>, given: seq<Message>)
    requires Rising(at, |given|)
    ensures Behind(at, |at|) <= |given|
    ensures Parts(given[..Behind(at, |at|)], Found(at, given), MissingBefore(at, given))
  {
    if at == [] {
      assert given[..0] == [];
    } else {
      var init, a := at[..|at| - 1], at[|at| - 1];
      RisingInit(at, |given|);
      RisingParts(init, given);
      PartsMore(given, Behind(init, |init|), a, Found(init, given), MissingBefore(init, given),
                Found(at, given), MissingBefore(at, given));
    }
  }

  lemma {:induction false} PlacedFound(packets: seq<Packet>, at: seq<nat>, given: seq<Message>)
    requires Placed(packets, at, given)
    ensures Rising(at, |given|) && Found(at, given) == Messages(packets)
  {
    PlacedRises(packets, at, given);
    if packets != [] {
      PlacedInit(packets, at, given);
      PlacedFound(packets[..|packets| - 1], at[..|at| - 1], given);
    }
  }

  // Every message given is that of a packet, or missing, once.
  lemma PlacedParts(packets: seq<Packet>, at: seq<nat>, given: seq<Message>)
    requires Placed(packets, at, given)
    ensures Rising(at, |given|) && Behind(at, |at|) <= |given|
    ensures Parts(given[..Behind(at, |at|)], Messages(packets), MissingBefore(at, given))
  {
    PlacedFound(packets, at, given);
    RisingParts(at, given);
  }

  lemma PlacedAtLonger(p: Packet, from: nat, at: nat, given: seq<Message>, m: Message)
    requires PlacedAt(p, from, at, given)
    ensures PlacedAt(p, from, at, given + [m])
  {
    assert (given + [m])[from..at] == given[from..at];
  }

  // One more packet, of a message that is given next.
  lemma ToldMore(packets: seq<Packet>, at: seq<nat>, given: seq<Message>, p: Packet)
    requires Told(packets, at, given, p.lossBefore)
    ensures Told(packets + [p], at + [|given|], given + [p.message], NO_LOSS)
  {
    forall k | 0 <= k <= |packets|
      ensures PlacedAt((packets + [p])[k], Behind(at + [|given|], k), (at + [|given|])[k], given + [p.message])
    {
      PlacedMoreAt(packets, at, given, p, k);
    }
  }

  lemma PlacedMoreAt(packets: seq<Packet>, at: seq<nat>, given: seq<Message>, p: Packet, k: nat)
    requires Placed(packets, at, given) && Behind(at, |at|) <= |given| && k <= |packets|
    requires p.lossBefore == LossSum(given[Behind(at, |at|)..])
    ensures PlacedAt((packets + [p])[k], Behind(at + [|given|], k), (at + [|given|])[k], given + [p.message])
  {
    if k < |packets| {
      assert PlacedAt(packets[k], Behind(at, k), at[k], given);
      PlacedAtLonger(packets[k], Behind(at, k), at[k], given, p.message);
      assert (at + [|given|])[k] == at[k] && Behind(at + [|given|], k) == Behind(at, k);
    } else {
      PlacedNext(p, Behind(at, k), given);
      assert Behind(at + [|given|], k) == Behind(at, k);
    }
  }

  lemma PlacedNext(p: Packet, from: nat, given: seq<Message>)
    requires from <= |given| && p.lossBefore == LossSum(given[from..])
    ensures PlacedAt(p, from, |given|, given + [p.message])
  {
    assert (given + [p.message])[from..|given|] == given[from..];
  }

  // A message more, given and lost.
  lemma ToldLonger(packets: seq<Packet>, at: seq<nat>, given: seq<Message>, owed: Loss, m: Message)
    requires Told(packets, at, given, owed)
    ensures Told(packets, at, given + [m], Merge(owed, LossOf(m)))
  {
    PlacedRises(packets, at, given);
    forall k | 0 <= k < |packets| ensures PlacedAt(packets[k], Behind(at, k), at[k], given + [m]) {
      PlacedAtLonger(packets[k], Behind(at, k), at[k], given, m);
    }
    var from := Behind(at, |at|);
    assert (given + [m])[from..] == given[from..] + [m];
    LossSumConcat(given[from..], [m]);
    LossSumOne(m);
  }

  lemma SplitAround<T>(s: seq<T>, from: nat, at: nat, to: nat)
    requires from <= at < to <= |s|
    ensures s[from..to] == s[from..at] + [s[at]] + s[at + 1..to]
  {
    assert s[from..to] == s[from..at] + s[at..to];
    assert s[at..to] == [s[at]] + s[at + 1..to];
  }

  // What a packet reports together with its own loss is what was given up to it and lost.
  lemma LossWithHead(p: Packet, from: nat, at: nat, given: seq<Message>, to: nat)
    requires PlacedAt(p, from, at, given) && at < to <= |given|
    ensures LossSum(given[from..to]) == Merge(LossSum(given[at + 1..to]), Merge(p.lossBefore, LossOf(p.message)))
  {
    SplitAround(given, from, at, to);
    LossSumConcat(given[from..at] + [given[at]], given[at + 1..to]);
    LossSumConcat(given[from..at], [given[at]]);
    LossSumOne(given[at]);
    MergeLaws(LossSum(given[at + 1..to]), LossSum(given[from..at] + [given[at]]), NO_LOSS);
  }

  // A sequence without its element at h.
  function Without<T>(s: seq<T>, h: nat): (t: seq<T>)
    requires h < |s|
  {
    s[..h] + s[h + 1..]
  }

  // Without the packet at h, whose loss and whose report go to the packet behind it.
  lemma ToldWithout(packets: seq<Packet>, at: seq<nat>, given: seq<Message>, owed: Loss, h: nat)
    requires Told(packets, at, given, owed) && h + 1 < |packets|
    ensures var prefix := Merge(packets[h].lossBefore, LossOf(packets[h].message));
            Told(packets[..h] + ([WithLoss(packets[h + 1], prefix)] + packets[h + 2..]), Without(at, h), given, owed)
  {
    var prefix := Merge(packets[h].lossBefore, LossOf(packets[h].message));
    var packets' := packets[..h] + ([WithLoss(packets[h + 1], prefix)] + packets[h + 2..]);
    var at' := Without(at, h);
    assert Behind(at', |at'|) == Behind(at, |at|);
    forall k | 0 <= k < |packets'| ensures PlacedAt(packets'[k], Behind(at', k), at'[k], given) {
      if k < h {
        assert PlacedAt(packets[k], Behind(at, k), at[k], given);
      } else {
        assert PlacedAt(packets[k + 1], Behind(at, k + 1), at[k + 1], given);
        assert at'[k] == at[k + 1];
        if k == h {
          assert PlacedAt(packets[h], Behind(at, h), at[h], given) && Behind(at', h) == Behind(at, h);
          PlacedInstead(packets[h], packets[h + 1], Behind(at, h), at[h], at[h + 1], given);
        } else {
          assert Behind(at', k) == Behind(at, k + 1) && packets'[k] == packets[k + 1];
        }
      }
    }
  }

  // A packet that takes over the place and the report of the one before it.
  lemma PlacedInstead(p: Packet, q: Packet, from: nat, at: nat, at': nat, given: seq<Message>)
    requires PlacedAt(p, from, at, given) && PlacedAt(q, at + 1, at', given)
    ensures PlacedAt(WithLoss(q, Merge(p.lossBefore, LossOf(p.message))), from, at', given)
  {
    LossWithHead(p, from, at, given, at');
  }

  // Without the last packet, whose loss and whose report are owed.
  lemma ToldWithoutLast(packets: seq<Packet>, at: seq<nat>, given: seq<Message>, owed: Loss, prefix: Loss)
    requires Told(packets, at, given, owed) && packets != []
    requires var p := packets[|packets| - 1]; prefix == Merge(p.lossBefore, LossOf(p.message))
    ensures Told(packets[..|packets| - 1], at[..|packets| - 1], given, Merge(owed, prefix))
  {
    var h := |packets| - 1;
    PlacedInit(packets, at, given);
    LossWithHead(packets[h], Behind(at[..h], h), at[h], given, |given|);
    assert given[Behind(at[..h], h)..|given|] == given[Behind(at[..h], h)..];
    assert given[at[h] + 1..|given|] == given[at[h] + 1..];
  }

  // ----- The mailbox ------------------------------------------------------------------

  class LogMailbox {
    const ring: Ring
    const policy: Policy
    var nextSequence: nat
    var tailLoss: Loss
    var dropped: Loss
    var closed: bool
    var endPending: bool
    var endLoss: Loss
    // History: the messages accepted, by sequence number, and the packets taken; all
    // messages accepted or dropped, as they came, and where those of the packets that have not
    // been dropped are among them.
    ghost var log: seq<Message>
    ghost var taken: seq<Packet>
    ghost var given: seq<Message>
    ghost var at: seq<nat>

    // The packets that have not been dropped, taken and queued.
    ghost function Kept(): (packets: seq<Packet>)
      requires ring.Valid()
      reads `taken, ring, ring.slots
    {
      taken + ring.Queue()
    }

    // All known losses are reported: with a packet, at the end, or with what comes next.
    ghost predicate Conserved()
      requires ring.Valid()
      reads `taken, `tailLoss, `dropped, `endLoss, ring, ring.slots
    {
      dropped == Merge(Merge(Reported(Kept()), tailLoss), endLoss)
    }

    // Every packet reports what was lost right before it; and so does the end. `prefix`
    // has yet to be reported.
    ghost predicate Reporting(prefix: Loss)
      reads `taken, `given, `at, `tailLoss, `endLoss, ring, ring.slots
    {
      ring.Valid() && Told(Kept(), at, given, Merge(Merge(tailLoss, endLoss), prefix))
    }

    ghost predicate Orderly()
      reads `taken, `log, `given, `nextSequence, ring, ring.slots
    {
      && ring.Valid() && nextSequence == |log| + 1 <= MAX_UINT64 && (policy != DropNewest ==> given == log)
      && Ordered(Kept(), log) && (policy != DropOldest ==> Complete(Kept(), log))
    }

    ghost predicate Valid()
      reads this, ring, ring.slots
    {
      && Orderly() && Conserved() && Reporting(NO_LOSS)
      && (closed ==> tailLoss == NO_LOSS) && (!closed ==> endLoss == NO_LOSS && !endPending)
      && (policy == Backpressure ==> dropped == NO_LOSS)
    }

    constructor (capacity: nat, policy: Policy)
      requires 0 < capacity <= 64
      ensures Valid() && Kept() == [] && !closed && this.policy == policy && ring.slots.Length == capacity
      ensures fresh(ring) && fresh(ring.slots)
    {
      ring := new Ring(capacity);
      this.policy := policy;
      nextSequence, tailLoss, dropped, endLoss := 1, NO_LOSS, NO_LOSS, NO_LOSS;
      closed, endPending, log, taken, given, at := false, false, [], [], [], [];
      new;
      MergeLaws(NO_LOSS, NO_LOSS, NO_LOSS);
    }

    // All known losses, but for those that something else has yet to report.
    ghost predicate ConservedBut(prefix: Loss)
      requires ring.Valid()
      reads this, ring, ring.slots
    {
      dropped == Merge(Merge(Merge(Reported(Kept()), tailLoss), endLoss), prefix)
    }

    // Makes room by dropping the oldest packet: what is lost with it, and what it had to
    // report, is yet to be reported.
    method DropHead() returns (prefix: Loss)
      requires ring.Valid() && Ordered(Kept(), log) && Conserved() && ring.count > 0
      modifies ring, `dropped
      ensures ring.Valid() && ring.Queue() == old(ring.Queue())[1..] && Ordered(Kept(), log) && ConservedBut(prefix)
      ensures var oldest := old(ring.Queue())[0];
              && prefix == Merge(oldest.lossBefore, LossOf(oldest.message))
              && dropped == Merge(old(dropped), LossOf(oldest.message))
    {
      ghost var queue := ring.Queue();
      var oldest := ring.Pop();
      var loss := LossOf(oldest.message);
      prefix := Merge(oldest.lossBefore, loss);
      dropped := Merge(dropped, loss);
      assert ring.Queue() == queue[1..];
      DroppingKeepsOrder(taken, queue, log);
      DroppingConserves(taken, queue, tailLoss, endLoss, loss);
    }

    // It is reported with the packet that is now the oldest.
    method ChargeHead(prefix: Loss)
      requires ring.Valid() && Ordered(Kept(), log) && ConservedBut(prefix) && ring.count > 0
      modifies ring.slots
      ensures ring.Valid() && Ordered(Kept(), log) && ConservedBut(NO_LOSS)
      ensures ring.Queue() == [WithLoss(old(ring.Queue())[0], prefix)] + old(ring.Queue())[1..]
    {
      ghost var rest := ring.Queue();
      ring.Charge(prefix);
      ChargingKeepsOrder(taken, rest, prefix, log);
      ChargingReports(taken, rest, prefix);
      MergedEarlier(Reported(taken + rest), prefix, tailLoss, endLoss);
    }

    // A message joins the queue, with all that is to be reported before it.
    method Append(message: Message, prefix: Loss)
      requires ring.Valid() && ring.count < ring.slots.Length && nextSequence == |log| + 1 < MAX_UINT64
      requires Ordered(Kept(), log) && ConservedBut(prefix) && Reporting(prefix) && endLoss == NO_LOSS
      modifies ring, ring.slots, `nextSequence, `tailLoss, `log, `given, `at
      ensures ring.Valid() && Ordered(Kept(), log) && Conserved() && Reporting(NO_LOSS)
      ensures nextSequence == |log| + 1 && tailLoss == NO_LOSS
      ensures log == old(log) + [message] && given == old(given) + [message] && at == old(at) + [|old(given)|]
      ensures Kept() == old(Kept()) + [Packet(message, old(nextSequence), Merge(prefix, old(tailLoss)))]
      ensures ring.Queue() == old(ring.Queue()) + [Packet(message, old(nextSequence), Merge(prefix, old(tailLoss)))]
    {
      var p := Packet(message, nextSequence, Merge(prefix, tailLoss));
      ghost var kept := Kept();
      AppendingKeepsOrder(kept, p, log);
      AppendingConserves(kept, p, prefix, tailLoss);
      OwedNext(tailLoss, prefix);
      ToldMore(kept, at, given, p);
      ring.Push(p);
      assert Kept() == kept + [p];
      nextSequence, tailLoss, log := nextSequence + 1, NO_LOSS, log + [message];
      given, at := given + [message], at + [|given|];
      assert Kept() == kept + [p];
    }

    // All that is needed to append, but for room: `prefix` has yet to be reported.
    ghost predicate Ready(prefix: Loss)
      reads this, ring, ring.slots
    {
      && ring.Valid() && !closed && !endPending && endLoss == NO_LOSS && nextSequence == |log| + 1 <= MAX_UINT64
      && Ordered(Kept(), log) && (policy != DropOldest ==> Complete(Kept(), log))
      && ConservedBut(prefix) && Reporting(prefix) && (policy != DropNewest ==> given == log)
      && (policy == Backpressure ==> dropped == NO_LOSS)
    }

    // Room for one more packet in a full ring, by dropping the oldest.
    method MakeRoom() returns (prefix: Loss)
      requires Valid() && !closed && policy == DropOldest && ring.count > 0
      modifies ring, ring.slots, `dropped, `at
      ensures Ready(prefix) && ring.count == old(ring.count) - 1
      ensures at == Without(old(at), |taken|) && Messages(ring.Queue()) == Messages(old(ring.Queue()))[1..]
      ensures dropped == Merge(old(dropped), LossOf(old(ring.Queue())[0].message))
    {
      ghost var queue := ring.Queue();
      assert Told(taken + queue, at, given, Merge(Merge(tailLoss, endLoss), NO_LOSS));
      prefix := DropHead();
      assert ring.count == |queue| - 1;
      prefix := PassOn(queue, prefix);
      Forget(prefix);
    }

    // The oldest packet queued is no longer among those that are kept.
    ghost method Forget(prefix: Loss)
      requires ring.Valid() && |taken| < |at|
      requires Told(Kept(), Without(at, |taken|), given, Merge(Merge(tailLoss, endLoss), prefix))
      modifies `at
      ensures at == Without(old(at), |taken|) && Reporting(prefix)
    {
      at := Without(at, |taken|);
    }

    // What is lost with the oldest packet, now gone, and what it had to report, is reported
    // with the next, or owed.
    method PassOn(ghost queue: seq<Packet>, prefix: Loss) returns (owed: Loss)
      requires ring.Valid() && queue != [] && ring.Queue() == queue[1..] && Ordered(Kept(), log)
      requires ConservedBut(prefix) && prefix == Merge(queue[0].lossBefore, LossOf(queue[0].message))
      requires Told(taken + queue, at, given, Merge(Merge(tailLoss, endLoss), NO_LOSS))
      modifies ring.slots
      ensures ring.Valid() && Ordered(Kept(), log) && Messages(ring.Queue()) == Messages(queue)[1..]
      ensures ConservedBut(owed)
      ensures Told(Kept(), Without(at, |taken|), given, Merge(Merge(tailLoss, endLoss), owed))
    {
      if ring.count > 0 {
        ChargeHead(prefix);
        HeadGone(taken, queue, at, given, prefix, Merge(Merge(tailLoss, endLoss), NO_LOSS));
        owed := NO_LOSS;
      } else {
        MergeLaws(Merge(tailLoss, endLoss), NO_LOSS, NO_LOSS);
        LastGone(taken, queue, at, given, Merge(tailLoss, endLoss), prefix);
        NoMessagesLeft(queue);
        owed := prefix;
      }
    }

    // offer: an accepted message is kept behind all others, at the price of the oldest when
    // that is the policy; a message dropped for another reason is a loss to be reported; and
    // any other answer changes nothing.
    method Offer(message: Message) returns (result: OfferResult)
      requires Valid()
      modifies ring, ring.slots, `nextSequence, `tailLoss, `dropped, `log, `given, `at
      ensures Valid() && taken == old(taken) && closed == old(closed) && endPending == old(endPending)
      ensures result == Accepted ==> log == old(log) + [message]
      ensures result == Accepted && old(ring.count) < ring.slots.Length ==>
        JoinsAll(old(Kept()), Kept(), message) && dropped == old(dropped) && at == old(at) + [|old(given)|]
      ensures result == Accepted && old(ring.count) == ring.slots.Length ==>
        && policy == DropOldest && Messages(ring.Queue()) == Messages(old(ring.Queue()))[1..] + [message]
        && dropped == Merge(old(dropped), LossOf(old(ring.Queue())[0].message))
        && at == Without(old(at), |taken|) + [|old(given)|]
      ensures result == Dropped ==>
        && policy == DropNewest && old(ring.count) == ring.slots.Length
        && dropped == Merge(old(dropped), LossOf(message)) && tailLoss == Merge(old(tailLoss), LossOf(message))
      ensures result != Accepted ==> log == old(log) && Kept() == old(Kept()) && at == old(at)
      ensures result !in {Accepted, Dropped} ==> dropped == old(dropped) && tailLoss == old(tailLoss)
      ensures given == old(given) + (if result in {Accepted, Dropped} then [message] else [])
      ensures result == WouldBlock ==> policy == Backpressure && ring.count == ring.slots.Length
      ensures result == Closed ==> closed
    {
      if * {
        result := Busy;
      } else if closed {
        result := Closed;
      } else if nextSequence == MAX_UINT64 {
        result := Exhausted;
      } else if ring.count < ring.slots.Length {
        OfferRoom(message);
        result := Accepted;
      } else {
        result := OfferFull(message);
      }
    }

    // An offer to a ring with room.
    method OfferRoom(message: Message)
      requires Valid() && !closed && nextSequence < MAX_UINT64 && ring.count < ring.slots.Length
      modifies ring, ring.slots, `nextSequence, `tailLoss, `log, `given, `at
      ensures Valid() && log == old(log) + [message] && JoinsAll(old(Kept()), Kept(), message)
      ensures given == old(given) + [message] && at == old(at) + [|old(given)|]
    {
      NothingPending();
      Accept(message, NO_LOSS);
    }

    // An offer to a full ring, as the policy says.
    method OfferFull(message: Message) returns (result: OfferResult)
      requires Valid() && !closed && nextSequence < MAX_UINT64 && ring.count == ring.slots.Length
      modifies ring, ring.slots, `nextSequence, `tailLoss, `dropped, `log, `given, `at
      ensures Valid()
      ensures result == match policy
                        case Backpressure => WouldBlock
                        case DropNewest => Dropped
                        case DropOldest => Accepted
      ensures result == Accepted ==>
        && log == old(log) + [message] && Messages(ring.Queue()) == Messages(old(ring.Queue()))[1..] + [message]
        && dropped == Merge(old(dropped), LossOf(old(ring.Queue())[0].message))
        && at == Without(old(at), |taken|) + [|old(given)|]
      ensures result == Dropped ==>
        dropped == Merge(old(dropped), LossOf(message)) && tailLoss == Merge(old(tailLoss), LossOf(message))
      ensures result != Accepted ==> log == old(log) && Kept() == old(Kept()) && at == old(at)
      ensures result == WouldBlock ==> dropped == old(dropped) && tailLoss == old(tailLoss)
      ensures given == old(given) + (if result in {Accepted, Dropped} then [message] else [])
    {
      match policy {
        case Backpressure =>
          return WouldBlock;
        case DropNewest =>
          LoseNewest(message);
          return Dropped;
        case DropOldest =>
          ReplaceOldest(message);
          return Accepted;
      }
    }

    method LoseNewest(message: Message)
      requires Valid() && !closed && policy == DropNewest
      modifies `tailLoss, `dropped, `given
      ensures Valid() && dropped == Merge(old(dropped), LossOf(message))
      ensures tailLoss == Merge(old(tailLoss), LossOf(message)) && given == old(given) + [message]
    {
      ghost var kept := Kept();
      var loss := LossOf(message);
      var sum, tail := Merge(dropped, loss), Merge(tailLoss, loss);
      LosingConserves(Reported(kept), tailLoss, loss);
      ToldLonger(kept, at, given, Merge(Merge(tailLoss, endLoss), NO_LOSS), message);
      LosingOwes(tailLoss, loss);
      assert sum == Merge(Merge(Reported(kept), tail), endLoss);
      dropped, tailLoss, given := sum, tail, given + [message];
      assert Kept() == kept && Orderly();
    }

    method ReplaceOldest(message: Message)
      requires Valid() && !closed && nextSequence < MAX_UINT64 && policy == DropOldest
      requires ring.count == ring.slots.Length
      modifies ring, ring.slots, `nextSequence, `tailLoss, `dropped, `log, `given, `at
      ensures Valid() && log == old(log) + [message] && given == old(given) + [message]
      ensures Messages(ring.Queue()) == Messages(old(ring.Queue()))[1..] + [message]
      ensures dropped == Merge(old(dropped), LossOf(old(ring.Queue())[0].message))
      ensures at == Without(old(at), |taken|) + [|old(given)|]
    {
      ghost var queue := ring.Queue();
      var prefix := MakeRoom();
      ghost var left, p := ring.Queue(), Packet(message, nextSequence, Merge(prefix, tailLoss));
      Accept(message, prefix);
      MessagesReplaced(queue, left, ring.Queue(), p);
    }

    lemma NothingPending()
      requires Valid() && !closed
      ensures Ready(NO_LOSS)
    {
      MergeLaws(Merge(Merge(Reported(Kept()), tailLoss), endLoss), NO_LOSS, NO_LOSS);
    }

    // Appends a message when there is room for it.
    method Accept(message: Message, prefix: Loss)
      requires Ready(prefix) && ring.count < ring.slots.Length && nextSequence < MAX_UINT64
      modifies ring, ring.slots, `nextSequence, `tailLoss, `log, `given, `at
      ensures Valid() && log == old(log) + [message]
      ensures given == old(given) + [message] && at == old(at) + [|old(given)|]
      ensures Kept() == old(Kept()) + [Packet(message, old(nextSequence), Merge(prefix, old(tailLoss)))]
      ensures ring.Queue() == old(ring.Queue()) + [Packet(message, old(nextSequence), Merge(prefix, old(tailLoss)))]
    {
      ghost var kept, p := Kept(), Packet(message, nextSequence, Merge(prefix, tailLoss));
      AppendingKeepsOrder(kept, p, log);
      Append(message, prefix);
    }

    method TakeHead() returns (p: Packet)
      requires Valid() && ring.count > 0
      modifies `taken, ring
      ensures Valid() && Kept() == old(Kept()) && taken == old(taken) + [p]
    {
      ghost var kept := Kept();
      p := ring.Pop();
      taken := taken + [p];
      assert Kept() == kept;
    }

    // take: packets in the order they are kept, then the end.
    method Take() returns (result: TakeResult)
      requires Valid()
      modifies `taken, `endPending, ring
      ensures Valid() && Kept() == old(Kept()) && log == old(log)
      ensures match result
              case Got(Data(p)) => taken == old(taken) + [p] && endPending == old(endPending)
              case Got(End(loss)) =>
                taken == old(taken) == Kept() && old(endPending) && !endPending && loss == endLoss && closed
              case Empty => taken == old(taken) == Kept() && !old(endPending) && !endPending
              case TakeBusy => taken == old(taken) && endPending == old(endPending)
    {
      if * {
        return TakeBusy;
      }
      if ring.count > 0 {
        var p := TakeHead();
        return Got(Data(p));
      }
      assert Kept() == taken;
      if endPending {
        endPending := false;
        return Got(End(endLoss));
      }
      return Empty;
    }

    // close: the end is to be taken after all packets, with the loss after the last.
    method Close() returns (done: bool)
      requires Valid()
      modifies `closed, `endPending, `endLoss, `tailLoss
      ensures Valid() && Kept() == old(Kept()) && (done ==> closed)
      ensures done && !old(closed) ==> endPending && endLoss == old(tailLoss)
      ensures !done || old(closed) ==> closed == old(closed) && endPending == old(endPending) && endLoss == old(endLoss)
    {
      if * {
        return false;
      }
      if !closed {
        CloseNow();
      }
      return true;
    }

    method CloseNow()
      requires Valid() && !closed
      modifies `closed, `endPending, `endLoss, `tailLoss
      ensures Valid() && closed && endPending && endLoss == old(tailLoss)
    {
      ghost var kept, owed := Kept(), Merge(Merge(tailLoss, endLoss), NO_LOSS);
      ClosingConserves(Reported(kept), tailLoss);
      closed, endPending, endLoss, tailLoss := true, true, tailLoss, NO_LOSS;
      assert Kept() == kept && Merge(Merge(tailLoss, endLoss), NO_LOSS) == owed;
    }

    // With backpressure nothing is ever lost: what was taken and what is queued are the
    // messages accepted, in the order of acceptance.
    lemma BackpressureLosesNothing()
      requires Valid() && policy == Backpressure
      ensures dropped == NO_LOSS && Messages(Kept()) == log
    {
    }

    // The messages that were given and not kept.
    ghost function Lost(): (lost: seq<Message>)
      requires Valid()
      reads this, ring, ring.slots
    {
      PlacedRises(Kept(), at, given);
      Missing(at, given)
    }

    // Every message that was given is that of a packet taken or queued, or lost, once; and
    // the losses counted are those of the messages lost.
    lemma EveryMessageIsAccountedFor()
      requires Valid()
      ensures multiset(given) == multiset(Messages(Kept())) + multiset(Lost())
      ensures dropped == LossSum(Lost()) && Totals(dropped, Lost())
    {
      LossSumTotals(Lost());
      MissingParts(Kept(), at, given);
      MissingReported(Kept(), at, given);
      MergeLaws(Merge(tailLoss, endLoss), NO_LOSS, NO_LOSS);
      MergeLaws(Reported(Kept()), tailLoss, endLoss);
    }

    // When a closed mailbox has been taken empty, every message that was given has been taken
    // or is lost; each packet reported what was lost right before it, and the end what was
    // lost after the last; so the consumer was told of all that is lost, once.
    lemma AllLossesReported(k: nat)
      requires Valid() && closed && ring.Queue() == []
      ensures multiset(given) == multiset(Messages(taken)) + multiset(Lost())
      ensures Merge(Reported(taken), endLoss) == LossSum(Lost()) && Totals(LossSum(Lost()), Lost())
      ensures k < |taken| ==> |at| == |taken| && PlacedAt(taken[k], Behind(at, k), at[k], given)
      ensures endLoss == LossSum(given[Behind(at, |at|)..])
    {
      assert Kept() == taken;
      EveryMessageIsAccountedFor();
      MergeLaws(Reported(taken), NO_LOSS, NO_LOSS);
      MergeLaws(endLoss, NO_LOSS, NO_LOSS);
      assert k < |taken| ==> PlacedAt(taken[k], Behind(at, k), at[k], given);
    }
  }

  lemma MissingParts(packets: seq<Packet>, at: seq<nat>, given: seq<Message>)
    requires Placed(packets, at, given)
    ensures Rising(at, |given|) && multiset(given) == multiset(Messages(packets)) + multiset(Missing(at, given))
  {
    PlacedParts(packets, at, given);
    var from := Behind(at, |at|);
    assert given == given[..from] + given[from..];
  }

  lemma MissingReported(packets: seq<Packet>, at: seq<nat>, given: seq<Message>)
    requires Placed(packets, at, given)
    ensures Rising(at, |given|) && Behind(at, |at|) <= |given|
    ensures LossSum(Missing(at, given)) == Merge(Reported(packets), LossSum(given[Behind(at, |at|)..]))
  {
    PlacedReports(packets, at, given);
    LossSumConcat(MissingBefore(at, given), given[Behind(at, |at|)..]);
  }

  // The message joins all packets that are kept.
  ghost predicate JoinsAll(before: seq<Packet>, after: seq<Packet>, message: Message) {
    |after| == |before| + 1 && after[..|before|] == before && after[|before|].message == message
  }

  // The oldest packet in the queue is gone: the next reports for it, or it is owed.
  lemma HeadGone(taken: seq<Packet>, queue: seq<Packet>, at: seq<nat>, given: seq<Message>, prefix: Loss, owed: Loss)
    requires |queue| > 1 && Told(taken + queue, at, given, owed)
    requires prefix == Merge(queue[0].lossBefore, LossOf(queue[0].message))
    ensures var queue' := [WithLoss(queue[1], prefix)] + queue[2..];
            && Told(taken + queue', Without(at, |taken|), given, owed)
            && Messages(queue') == Messages(queue)[1..]
  {
    var packets, h := taken + queue, |taken|;
    ToldWithout(packets, at, given, owed, h);
    assert packets[..h] == taken && packets[h + 2..] == queue[2..];
    assert packets[h] == queue[0] && packets[h + 1] == queue[1];
    MessagesRest(queue, prefix);
  }

  lemma LastGone(
    taken: seq<Packet>, queue: seq<Packet>, at: seq<nat>, given: seq<Message>, owed: Loss, prefix: Loss)
    requires |queue| == 1 && Told(taken + queue, at, given, owed)
    requires prefix == Merge(queue[0].lossBefore, LossOf(queue[0].message))
    ensures Told(taken + queue[1..], Without(at, |taken|), given, Merge(owed, prefix))
  {
    LastOfMany(taken, queue);
    LastPlace(at, |taken|);
    ToldWithoutLast(taken + queue, at, given, owed, prefix);
  }

  lemma NoMessagesLeft(queue: seq<Packet>)
    requires |queue| == 1
    ensures Messages(queue[1..]) == Messages(queue)[1..]
  {
    assert queue[1..] == [] && |Messages(queue)| == 1;
  }

  lemma LastPlace(at: seq<nat>, h: nat)
    requires |at| == h + 1
    ensures Without(at, h) == at[..h]
  {
  }

  lemma LastOfMany<T>(some: seq<T>, last: seq<T>)
    requires |last| == 1
    ensures (some + last)[..|some|] == some == some + last[1..] && (some + last)[|some|] == last[0]
  {
  }

  lemma MessagesMore(packets: seq<Packet>, p: Packet)
    ensures Messages(packets + [p]) == Messages(packets) + [p.message]
  {
    assert (packets + [p])[..|packets|] == packets;
  }

  lemma MessagesReplaced(queue: seq<Packet>, left: seq<Packet>, queue': seq<Packet>, p: Packet)
    requires queue != [] && Messages(left) == Messages(queue)[1..] && queue' == left + [p]
    ensures Messages(queue') == Messages(queue)[1..] + [p.message]
  {
    MessagesMore(left, p);
  }

  lemma MessagesAt(packets: seq<Packet>, k: nat)
    requires k < |packets|
    ensures Messages(packets)[k] == packets[k].message
  {
  }

  lemma MessagesRest(queue: seq<Packet>, prefix: Loss)
    requires |queue| > 1
    ensures Messages([WithLoss(queue[1], prefix)] + queue[2..]) == Messages(queue)[1..]
  {
    var queue' := [WithLoss(queue[1], prefix)] + queue[2..];
    forall k | 0 <= k < |queue'| ensures Messages(queue')[k] == Messages(queue)[1..][k] {
      MessagesAt(queue', k);
      MessagesAt(queue, k + 1);
    }
  }

  // What was to be reported with the next packet is reported with the end.
  lemma ClosingConserves(r: Loss, tail: Loss)
    ensures Merge(Merge(r, tail), NO_LOSS) == Merge(Merge(r, NO_LOSS), tail)
    ensures Merge(Merge(tail, NO_LOSS), NO_LOSS) == Merge(Merge(NO_LOSS, tail), NO_LOSS)
  {
  }

  lemma OwedNext(tail: Loss, prefix: Loss)
    ensures Merge(Merge(tail, NO_LOSS), prefix) == Merge(prefix, tail)
    ensures Merge(Merge(NO_LOSS, NO_LOSS), NO_LOSS) == NO_LOSS
  {
  }

  lemma LosingOwes(tail: Loss, loss: Loss)
    ensures Merge(Merge(Merge(tail, NO_LOSS), NO_LOSS), loss) == Merge(Merge(Merge(tail, loss), NO_LOSS), NO_LOSS)
  {
  }

  // One more loss after the last packet.
  lemma LosingConserves(r: Loss, tail: Loss, loss: Loss)
    ensures Merge(Merge(Merge(r, tail), NO_LOSS), loss) == Merge(Merge(r, Merge(tail, loss)), NO_LOSS)
  {
  }

  // A loss may be added before the others.
  lemma MergedEarlier(r: Loss, prefix: Loss, tail: Loss, end: Loss)
    ensures Merge(Merge(Merge(Merge(r, prefix), tail), end), NO_LOSS) == Merge(Merge(Merge(r, tail), end), prefix)
  {
  }

  lemma AppendingKeepsOrder(kept: seq<Packet>, p: Packet, log: seq<Message>)
    requires Ordered(kept, log) && p.sequence == |log| + 1
    ensures Ordered(kept + [p], log + [p.message])
    ensures Complete(kept, log) ==> Complete(kept + [p], log + [p.message])
  {
    assert (kept + [p])[..|kept|] == kept;
    OrderedLonger(kept, log, p.message);
    LastIsInLog(kept, log);
  }

  // What was to be reported is reported with the packet.
  lemma AppendingConserves(kept: seq<Packet>, p: Packet, prefix: Loss, tail: Loss)
    requires p.lossBefore == Merge(prefix, tail)
    ensures Merge(Merge(Merge(Reported(kept), tail), NO_LOSS), prefix) ==
            Merge(Merge(Reported(kept + [p]), NO_LOSS), NO_LOSS)
  {
    ReportedMore(kept, p);
    var r := Reported(kept);
    MergeLaws(Merge(r, tail), prefix, NO_LOSS);
    MergeLaws(r, tail, prefix);
    MergeLaws(prefix, tail, NO_LOSS);
    MergeLaws(Reported(kept + [p]), NO_LOSS, NO_LOSS);
  }

  lemma {:induction false} DroppingKeepsOrder(taken: seq<Packet>, queue: seq<Packet>, log: seq<Message>)
    requires queue != [] && Ordered(taken + queue, log)
    ensures Ordered(taken + queue[1..], log)
    ensures LastSequence(taken + queue[1..]) <= LastSequence(taken + queue)
    ensures |queue| == 1 ==> LastSequence(taken) < LastSequence(taken + queue)
  {
    var init, last := queue[..|queue| - 1], queue[|queue| - 1];
    assert (taken + queue)[..|taken + queue| - 1] == taken + init;
    if |queue| == 1 {
      assert taken + queue[1..] == taken == taken + init;
    } else {
      DroppingKeepsOrder(taken, init, log);
      assert queue[1..] == init[1..] + [last];
      assert (taken + queue[1..])[..|taken + queue[1..]| - 1] == taken + init[1..];
    }
  }

  lemma {:induction false} ChargingKeepsOrder(taken: seq<Packet>, rest: seq<Packet>, prefix: Loss, log: seq<Message>)
    requires rest != [] && Ordered(taken + rest, log)
    ensures var charged := [WithLoss(rest[0], prefix)] + rest[1..];
            && Ordered(taken + charged, log) && LastSequence(taken + charged) == LastSequence(taken + rest)
            && Messages(taken + charged) == Messages(taken + rest)
  {
    var charged := [WithLoss(rest[0], prefix)] + rest[1..];
    var init, last := rest[..|rest| - 1], rest[|rest| - 1];
    assert (taken + rest)[..|taken + rest| - 1] == taken + init;
    if |rest| == 1 {
      assert (taken + charged)[..|taken + charged| - 1] == taken == taken + init;
    } else {
      var chargedInit := [WithLoss(init[0], prefix)] + init[1..];
      ChargingKeepsOrder(taken, init, prefix, log);
      assert charged == chargedInit + [last];
      assert (taken + charged)[..|taken + charged| - 1] == taken + chargedInit;
    }
  }

  lemma ChargingReports(taken: seq<Packet>, rest: seq<Packet>, prefix: Loss)
    requires rest != []
    ensures Reported(taken + ([WithLoss(rest[0], prefix)] + rest[1..])) == Merge(Reported(taken + rest), prefix)
  {
    ReportedHead(rest, prefix);
    ReportedConcat(taken, rest);
    ReportedConcat(taken, [WithLoss(rest[0], prefix)] + rest[1..]);
    MergeLaws(Reported(taken), Reported(rest), prefix);
  }

  // The loss of the oldest packet and what it had to report make up for its absence.
  lemma DroppingConserves(taken: seq<Packet>, queue: seq<Packet>, tail: Loss, end: Loss, loss: Loss)
    requires queue != []
    ensures Merge(Merge(Merge(Reported(taken + queue), tail), end), loss) ==
            Merge(Merge(Merge(Reported(taken + queue[1..]), tail), end), Merge(queue[0].lossBefore, loss))
  {
    var head, rest := queue[0], queue[1..];
    assert queue == [head] + rest;
    ReportedConcat(taken, queue);
    ReportedConcat([head], rest);
    ReportedOne(head);
    ReportedConcat(taken, rest);
    MovedOut(Reported(taken), head.lossBefore, Reported(rest), tail, end, loss);
  }

  lemma MovedOut(a: Loss, h: Loss, r: Loss, t: Loss, e: Loss, l: Loss)
    ensures Merge(Merge(Merge(Merge(a, Merge(h, r)), t), e), l) == Merge(Merge(Merge(Merge(a, r), t), e), Merge(h, l))
  {
  }
}
