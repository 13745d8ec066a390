/**
 The pointer-chase ring of the cache-latency benchmark: the xorshift64 generator, the
 Sattolo shuffle, the successor array built from it and the walk along that array.
 */
module PointerChase {
  import opened Arithmetic

  // std::uint32_t slots.
  const SLOT_LIMIT: nat := 0x1_0000_0000

  // One step of the generator, which never falls into its fixed point at zero.
  function Xorshift64(state: bv64): (next: bv64)
    ensures next == 0 <==> state == 0
  {
    var a := state ^ (state << 13);
    var b := a ^ (a >> 7);
    b ^ (b << 17)
  }

  // Each of the three shifts is undone by shifting again by twice as much, until the word is
  // left. So no two states have the same next one: the generator permutes the states.
  lemma StepsBack(state: bv64)
    ensures
      var a := state ^ (state << 13);
      var b := a ^ (a >> 7);
      var next := b ^ (b << 17);
      && Xorshift64(state) == next
      && var c := next ^ (next << 17);
         var d := c ^ (c << 34);
         var e := d ^ (d >> 7);
         var f := e ^ (e >> 14);
         var g := f ^ (f >> 28);
         var h := g ^ (g >> 56);
         var i := h ^ (h << 13);
         var j := i ^ (i << 26);
         j ^ (j << 52) == state
  {
  }

  // ----- Permutations and their cycles --------------------------------------------

  ghost predicate Distinct(s: seq<nat>) {
    forall i, j :: 0 <= i < j < |s| ==> s[i] != s[j]
  }

  ghost predicate InRange(s: seq<nat>, n: nat) {
    forall i :: 0 <= i < |s| ==> s[i] < n
  }

  ghost predicate Permutation(s: seq<nat>) {
    Distinct(s) && InRange(s, |s|)
  }

  predicate CycleStep(ring: seq<nat>, cycle: seq<nat>, t: nat)
    requires t < |cycle| && cycle[t] < |ring|
  {
    ring[cycle[t]] == cycle[if t + 1 < |cycle| then t + 1 else 0]
  }

  // `cycle` lists one cycle of the map i -> ring[i], in order, starting at its head.
  ghost predicate CycleOf(ring: seq<nat>, cycle: seq<nat>) {
    && |cycle| > 0
    && InRange(cycle, |ring|)
    && Distinct(cycle)
    && forall t :: 0 <= t < |cycle| ==> CycleStep(ring, cycle, t)
  }

  // The map i -> ring[i] is one cycle through every slot.
  ghost predicate SingleCycle(ring: seq<nat>) {
    exists cycle :: CycleOf(ring, cycle) && |cycle| == |ring|
  }

  function Iterate(ring: seq<nat>, start: nat, steps: nat): (at: nat)
    requires forall i :: 0 <= i < |ring| ==> ring[i] < |ring|
    requires start < |ring|
    ensures at < |ring|
  {
    if steps == 0 then start else ring[Iterate(ring, start, steps - 1)]
  }

  // Walking from any slot of a cycle follows the cycle round.
  lemma {:induction false} IterateAlong(ring: seq<nat>, cycle: seq<nat>, from: nat, steps: nat)
    requires InRange(ring, |ring|) && CycleOf(ring, cycle) && from < |cycle|
    ensures Iterate(ring, cycle[from], steps) == cycle[(from + steps) % |cycle|]
  {
    var place := from + steps;
    if steps == 0 {
      DivUnique(place, |cycle|, 0, from);
    } else {
      IterateAlong(ring, cycle, from, steps - 1);
      ModSucc(place - 1, |cycle|);
      assert CycleStep(ring, cycle, (place - 1) % |cycle|);
    }
  }

  // ----- Sattolo's theorem ----------------------------------------------------------

  function Swap(ring: seq<nat>, i: nat, j: nat): (swapped: seq<nat>)
    requires i < |ring| && j < |ring|
  {
    ring[i := ring[j]][j := ring[i]]
  }

  // The state of the shuffle above position k: one cycle for each position up to k, each
  // starting at its own position, together covering every slot exactly once.
  ghost predicate Forest(ring: seq<nat>, cycles: seq<seq<nat>>, owner: seq<nat>) {
    && |owner| == |ring|
    && (forall i :: 0 <= i < |cycles| ==> CycleOf(ring, cycles[i]) && cycles[i][0] == i)
    && (forall i, t :: 0 <= i < |cycles| && 0 <= t < |cycles[i]| ==> owner[cycles[i][t]] == i)
    && (forall slot :: 0 <= slot < |ring| ==> owner[slot] < |cycles| && slot in cycles[owner[slot]])
  }

  // The cycle that results from swapping the entries of two cycles' heads.
  function Joined(low: seq<nat>, high: seq<nat>): (joined: seq<nat>)
    requires |low| > 0 && |high| > 0
    ensures |joined| == |low| + |high|
    ensures forall t :: 0 <= t < |joined| ==>
      joined[t] == (if t == 0 then low[0] else if t < |high| then high[t]
                    else if t == |high| then high[0] else low[t - |high|])
  {
    [low[0]] + high[1..] + [high[0]] + low[1..]
  }

  lemma JoinedIsCycle(ring: seq<nat>, low: seq<nat>, high: seq<nat>)
    requires CycleOf(ring, low) && CycleOf(ring, high)
    requires forall s, t :: 0 <= s < |low| && 0 <= t < |high| ==> low[s] != high[t]
    ensures CycleOf(Swap(ring, high[0], low[0]), Joined(low, high))
  {
    var swapped, joined := Swap(ring, high[0], low[0]), Joined(low, high);
    forall t | 0 <= t < |joined|
      ensures CycleStep(swapped, joined, t)
    {
      if t == 0 {
        assert CycleStep(ring, high, 0);
      } else if t < |high| {
        assert CycleStep(ring, high, t);
      } else if t == |high| {
        assert CycleStep(ring, low, 0);
      } else {
        assert CycleStep(ring, low, t - |high|);
      }
    }
  }

  // A cycle through neither of the swapped slots is left alone.
  lemma SwapKeepsCycle(ring: seq<nat>, cycle: seq<nat>, i: nat, j: nat)
    requires i < |ring| && j < |ring| && CycleOf(ring, cycle)
    requires i !in cycle && j !in cycle
    ensures CycleOf(Swap(ring, i, j), cycle)
  {
    forall t | 0 <= t < |cycle|
      ensures CycleStep(Swap(ring, i, j), cycle, t)
    {
      assert CycleStep(ring, cycle, t);
    }
  }

  // Swapping the last position's entry with one strictly below joins the two cycles.
  lemma SwapJoins(ring: seq<nat>, cycles: seq<seq<nat>>, owner: seq<nat>, k: nat, j: nat)
    returns (cycles': seq<seq<nat>>, owner': seq<nat>)
    requires |cycles| == k + 1 && j < k < |ring| && Forest(ring, cycles, owner)
    ensures |cycles'| == k && Forest(Swap(ring, k, j), cycles', owner')
  {
    var joined := Joined(cycles[j], cycles[k]);
    cycles' := cycles[..k][j := joined];
    owner' := seq(|ring|, slot requires 0 <= slot < |ring| => if owner[slot] == k then j else owner[slot]);
    JoinedIsCycle(ring, cycles[j], cycles[k]);
    forall i | 0 <= i < k && i != j
      ensures CycleOf(Swap(ring, k, j), cycles'[i])
    {
      assert owner[cycles[k][0]] == k && owner[cycles[j][0]] == j;
      SwapKeepsCycle(ring, cycles[i], k, j);
    }
    forall slot | 0 <= slot < |ring|
      ensures slot in cycles'[owner'[slot]]
    {
      if owner[slot] == j || owner[slot] == k {
        JoinedHasBoth(cycles[j], cycles[k], slot);
      }
    }
  }

  lemma JoinedHasBoth(low: seq<nat>, high: seq<nat>, slot: nat)
    requires |low| > 0 && |high| > 0 && (slot in low || slot in high)
    ensures slot in Joined(low, high)
  {
    var joined := Joined(low, high);
    if slot in low {
      var t :| 0 <= t < |low| && low[t] == slot;
      assert joined[if t == 0 then 0 else |high| + t] == slot;
    } else {
      var t :| 0 <= t < |high| && high[t] == slot;
      assert joined[if t == 0 then |high| else t] == slot;
    }
  }

  // Before any swap, every slot is a cycle of its own.
  lemma IdentityForest(ring: seq<nat>) returns (cycles: seq<seq<nat>>, owner: seq<nat>)
    requires forall i :: 0 <= i < |ring| ==> ring[i] == i
    ensures |cycles| == |ring| && Forest(ring, cycles, owner)
  {
    cycles := seq(|ring|, i => [i]);
    owner := ring;
    forall i | 0 <= i < |cycles|
      ensures CycleOf(ring, cycles[i])
    {
      assert CycleStep(ring, cycles[i], 0);
    }
    assert forall slot :: 0 <= slot < |ring| ==> cycles[owner[slot]][0] == slot;
  }

  // The set of the numbers below n.
  function Below(n: nat): (all: set<nat>)
    ensures |all| == n && forall i :: i in all <==> 0 <= i < n
  {
    if n == 0 then {} else Below(n - 1) + {n - 1}
  }

  function Members(list: seq<nat>): (members: set<nat>) {
    set x | x in list
  }

  // A list of distinct slots as long as the ring names every slot.
  lemma DistinctCovers(list: seq<nat>, n: nat, slot: nat)
    requires Distinct(list) && InRange(list, n) && |list| == n
    requires slot < n
    ensures slot in list
  {
    DistinctSize(list);
    if slot !in list {
      SubsetSize(Members(list), Below(n) - {slot});
      assert false;
    }
  }

  lemma {:induction false} DistinctSize(list: seq<nat>)
    requires Distinct(list)
    ensures |Members(list)| == |list|
  {
    if |list| > 0 {
      var init, last := list[..|list| - 1], list[|list| - 1];
      DistinctSize(init);
      assert list == init + [last] && last !in init;
      assert Members(list) == Members(init) + {last};
    }
  }

  lemma {:induction false} SubsetSize(a: set<nat>, b: set<nat>)
    requires a <= b
    ensures |a| <= |b|
  {
    if x :| x in a {
      SubsetSize(a - {x}, b - {x});
    }
  }

  // One cycle left means one cycle through every slot.
  lemma LastCycleIsWhole(ring: seq<nat>, cycles: seq<seq<nat>>, owner: seq<nat>)
    requires |cycles| == 1 && Forest(ring, cycles, owner)
    ensures SingleCycle(ring)
  {
    var cycle := cycles[0];
    forall slot | 0 <= slot < |ring| ensures slot in cycle {
      assert owner[slot] == 0;
    }
    assert Members(cycle) == Below(|ring|);
    DistinctSize(cycle);
  }

  function Remainder(value: nat, index: nat): (remainder: nat)
    requires index > 0
    ensures remainder < index
  {
    value % index
  }

  // The next slot drawn below the given position.
  function Partner(state: bv64, index: nat): (partner: nat)
    requires index > 0
    ensures partner < index
  {
    Remainder(state as nat, index)
  }

  // The slots before the shuffle.
  function InOrder(elements: nat): (ring: seq<nat>)
    ensures |ring| == elements
  {
    seq(elements, i => i % SLOT_LIMIT)
  }

  // The state of the generator after some steps.
  function State(seed: bv64, steps: nat): (state: bv64) {
    if steps == 0 then (if seed == 0 then 1 else seed) else Xorshift64(State(seed, steps - 1))
  }

  // It starts at the seed, but never at zero, and never comes there.
  lemma {:induction false} StateIsNotZero(seed: bv64, steps: nat)
    ensures State(seed, steps) != 0 && (seed != 0 ==> State(seed, 0) == seed)
  {
    if steps > 0 {
      StateIsNotZero(seed, steps - 1);
    }
  }

  // Each draw swaps the last slot that is left with the one drawn for it.
  function Swapped(ring: seq<nat>, partners: seq<nat>): (swapped: seq<nat>)
    requires |partners| <= |ring| && forall k :: 0 <= k < |partners| ==> partners[k] < |ring|
    ensures |swapped| == |ring|
  {
    if partners == [] then ring
    else
      var k := |partners| - 1;
      Swap(Swapped(ring, partners[..k]), |ring| - 1 - k, partners[k])
  }

  // The draws for a seed: each state names a slot below the one to swap it with.
  ghost predicate Draws(partners: seq<nat>, seed: bv64, elements: nat) {
    && |partners| <= elements
    && forall k :: 0 <= k < |partners| ==>
         k < elements - 1 && partners[k] == Partner(State(seed, k + 1), elements - 1 - k)
  }

  // What the shuffle has done when the slots up to a position are left: the draws so far, and
  // one cycle for each slot that is left.
  ghost predicate Shuffled(
    ring: seq<nat>, partners: seq<nat>, seed: bv64, index: nat, cycles: seq<seq<nat>>, owner: seq<nat>)
  {
    && index < |ring| && |partners| == |ring| - 1 - index
    && Draws(partners, seed, |ring|) && ring == Swapped(InOrder(|ring|), partners)
    && (forall i :: 0 <= i < |ring| ==> ring[i] < SLOT_LIMIT && ring[i] < |ring|)
    && (|ring| <= SLOT_LIMIT ==> Distinct(ring) && |cycles| == index + 1 && Forest(ring, cycles, owner))
  }

  lemma ShuffleStarts(elements: nat, seed: bv64) returns (cycles: seq<seq<nat>>, owner: seq<nat>)
    requires elements > 0
    ensures Shuffled(InOrder(elements), [], seed, elements - 1, cycles, owner)
  {
    cycles, owner := [], [];
    if elements <= SLOT_LIMIT {
      cycles, owner := IdentityForest(InOrder(elements));
    }
  }

  // One more draw joins two of the cycles.
  lemma DrawJoins(
    ring: seq<nat>, partners: seq<nat>, seed: bv64, index: nat, partner: nat, cycles: seq<seq<nat>>, owner: seq<nat>)
    returns (cycles': seq<seq<nat>>, owner': seq<nat>)
    requires Shuffled(ring, partners, seed, index, cycles, owner) && partner < index
    requires partner == Partner(State(seed, |partners| + 1), index)
    ensures Shuffled(Swap(ring, index, partner), partners + [partner], seed, index - 1, cycles', owner')
  {
    cycles', owner' := [], [];
    if |ring| <= SLOT_LIMIT {
      cycles', owner' := SwapJoins(ring, cycles, owner, index, partner);
    }
    DrawSwaps(InOrder(|ring|), partners, partners + [partner], index, partner);
    DrawsMore(partners, seed, |ring|, partner);
    SwapStaysDistinct(ring, index, partner);
  }

  lemma DrawsMore(partners: seq<nat>, seed: bv64, elements: nat, partner: nat)
    requires Draws(partners, seed, elements) && |partners| + 1 < elements
    requires partner == Partner(State(seed, |partners| + 1), elements - 1 - |partners|)
    ensures Draws(partners + [partner], seed, elements)
  {
  }

  lemma SwapStaysDistinct(ring: seq<nat>, i: nat, j: nat)
    requires i < |ring| && j < |ring|
    ensures Distinct(ring) ==> Distinct(Swap(ring, i, j))
    ensures forall k :: 0 <= k < |ring| ==> Swap(ring, i, j)[k] in ring
  {
  }

  lemma DrawSwaps(start: seq<nat>, partners: seq<nat>, more: seq<nat>, index: nat, partner: nat)
    requires partner < index < |start| && |partners| == |start| - 1 - index && more == partners + [partner]
    requires forall k :: 0 <= k < |partners| ==> partners[k] < |start|
    ensures Swapped(start, more) == Swap(Swapped(start, partners), index, partner)
  {
    assert more[..|more| - 1] == partners;
  }

  // One turn of the loop: the generator goes on, and the slot it names is swapped with the
  // last that is left.
  method Draw(
    ring: array<nat>, index: nat, state: bv64, ghost partners: seq<nat>, ghost seed: bv64,
    ghost cycles: seq<seq<nat>>, ghost owner: seq<nat>)
    returns (
      state': bv64, ghost partners': seq<nat>, ghost cycles': seq<seq<nat>>, ghost owner': seq<nat>)
    requires index > 0 && state == State(seed, |partners|)
    requires Shuffled(ring[..], partners, seed, index, cycles, owner)
    modifies ring
    ensures state' == State(seed, |partners'|) && Shuffled(ring[..], partners', seed, index - 1, cycles', owner')
  {
    state' := Xorshift64(state);
    var partner := Partner(state', index);
    cycles', owner' := DrawJoins(ring[..], partners, seed, index, partner, cycles, owner);
    ghost var next := Swap(ring[..], index, partner);
    ring[index], ring[partner] := ring[partner], ring[index];
    assert ring[..] == next;
    partners' := partners + [partner];
  }

  // The shuffle. The slots are 32 bits wide.
  method Shuffle(elements: nat, seed: bv64) returns (ring: array<nat>, ghost partners: seq<nat>)
    requires elements >= 2
    ensures fresh(ring) && ring.Length == elements
    ensures forall i :: 0 <= i < elements ==> ring[i] < SLOT_LIMIT && ring[i] < elements
    ensures elements <= SLOT_LIMIT ==> Permutation(ring[..]) && SingleCycle(ring[..])
    ensures |partners| == elements - 1 && Draws(partners, seed, elements)
    ensures ring[..] == Swapped(InOrder(elements), partners)
  {
    ring := new nat[elements](i => i % SLOT_LIMIT);
    assert ring[..] == InOrder(elements);
    ghost var cycles, owner := ShuffleStarts(elements, seed);
    partners := [];
    var state := if seed == 0 then 1 else seed;
    var index := elements - 1;
    while index > 0
      invariant index < elements && state == State(seed, |partners|)
      invariant Shuffled(ring[..], partners, seed, index, cycles, owner)
    {
      state, partners, cycles, owner := Draw(ring, index, state, partners, seed, cycles, owner);
      index := index - 1;
    }
    if elements <= SLOT_LIMIT {
      LastCycleIsWhole(ring[..], cycles, owner);
    }
  }

  // The order that the draws for a seed make of the slots.
  ghost predicate DrawnFrom(order: seq<nat>, elements: nat, seed: bv64) {
    exists partners ::
      |partners| < elements && Draws(partners, seed, elements) && |partners| == elements - 1 &&
      order == Swapped(InOrder(elements), partners)
  }

  // The ring of the chase: each slot holds the one to visit next. `order` is the shuffled
  // order that the walk follows.
  method MakePointerChase(elements: nat, seed: bv64) returns (next: array<nat>, ghost order: seq<nat>)
    ensures fresh(next) && next.Length == elements
    ensures elements < 2 ==> forall i :: 0 <= i < elements ==> next[i] == 0
    ensures 2 <= elements <= 0x1_0000_0000 ==> |order| == elements && CycleOf(next[..], order) && SingleCycle(order)
    ensures elements >= 2 ==> (SingleCycle(next[..]) <==> elements <= 0x1_0000_0000) && DrawnFrom(order, elements, seed)
  {
    order := [];
    if elements < 2 {
      next := new nat[elements](i => 0);
      return;
    }
    ghost var partners;
    var ring;
    ring, partners := Shuffle(elements, seed);
    order := ring[..];
    assert DrawnFrom(order, elements, seed);
    next := Linked(ring);
    if elements > SLOT_LIMIT {
      SlotsTooNarrow(next[..]);
    }
  }

  // Each slot of a shuffled order holds the next one of it, and the last the first.
  method Linked(ring: array<nat>) returns (next: array<nat>)
    requires ring.Length >= 2
    requires forall i :: 0 <= i < ring.Length ==> ring[i] < SLOT_LIMIT && ring[i] < ring.Length
    ensures fresh(next) && next.Length == ring.Length
    ensures forall i :: 0 <= i < next.Length ==> next[i] < SLOT_LIMIT
    ensures Distinct(ring[..]) ==> CycleOf(next[..], ring[..])
  {
    ghost var order := ring[..];
    next := new nat[ring.Length](i => 0);
    for index := 0 to ring.Length - 1
      invariant ring[..] == order
      invariant forall i :: 0 <= i < next.Length ==> next[i] < SLOT_LIMIT
      invariant Distinct(order) ==> forall t :: 0 <= t < index ==> next[order[t]] == order[t + 1]
    {
      next[ring[index]] := ring[index + 1];
    }
    next[ring[ring.Length - 1]] := ring[0];
    if Distinct(order) {
      forall t | 0 <= t < ring.Length
        ensures CycleStep(next[..], order, t)
      {
      }
    }
  }

  // Slots that cannot name slot 2^32 cannot reach it.
  lemma SlotsTooNarrow(next: seq<nat>)
    requires |next| > SLOT_LIMIT
    requires forall i :: 0 <= i < |next| ==> next[i] < SLOT_LIMIT
    ensures !SingleCycle(next)
  {
    if cycle :| CycleOf(next, cycle) && |cycle| == |next| {
      MembersAreEntries(next, cycle, SLOT_LIMIT);
      DistinctCovers(cycle, |next|, SLOT_LIMIT);
      assert false;
    }
  }

  lemma MembersAreEntries(ring: seq<nat>, cycle: seq<nat>, limit: nat)
    requires CycleOf(ring, cycle)
    requires forall i :: 0 <= i < |ring| ==> ring[i] < limit
    ensures InRange(cycle, limit)
  {
    forall t | 0 <= t < |cycle|
      ensures cycle[t] < limit
    {
      assert CycleStep(ring, cycle, if t == 0 then |cycle| - 1 else t - 1);
    }
  }

  method WalkPointerChase(ring: seq<nat>, steps: nat) returns (at: nat)
    requires InRange(ring, |ring|)
    ensures ring == [] ==> at == 0
    ensures ring != [] ==> at == Iterate(ring, 0, steps)
  {
    if ring == [] {
      return 0;
    }
    at := 0;
    for step := 0 to steps
      invariant at == Iterate(ring, 0, step)
    {
      at := ring[at];
    }
  }

  // Where a walk along a chase ring stops: as many places round the shuffled order from
  // its start as it took steps. It is back at its start exactly at the multiples of the size.
  lemma WalkFollowsOrder(next: seq<nat>, order: seq<nat>, start: nat, steps: nat) returns (home: nat)
    requires CycleOf(next, order) && |order| == |next| && InRange(next, |next|) && start < |next|
    ensures home < |order| && order[home] == start
    ensures Iterate(next, start, steps) == order[(home + steps) % |order|]
    ensures Iterate(next, start, steps) == start <==> steps % |order| == 0
  {
    MembersAreEntries(next, order, |next|);
    DistinctCovers(order, |next|, start);
    home :| 0 <= home < |order| && order[home] == start;
    IterateAlong(next, order, home, steps);
    PlaceRepeats(home, steps, |order|);
  }

  lemma PlaceRepeats(home: nat, steps: nat, n: nat)
    requires home < n
    ensures (home + steps) % n < n
    ensures (home + steps) % n == home <==> steps % n == 0
  {
    var q, r := steps / n, steps % n;
    assert steps == q * n + r;
    if home + r < n {
      PlaceIs(home + steps, n, q, home + r);
    } else {
      assert (q + 1) * n == q * n + n;
      PlaceIs(home + steps, n, q + 1, home + r - n);
    }
  }

  lemma PlaceIs(place: nat, n: nat, q: nat, r: nat)
    requires r < n && place == q * n + r
    ensures place % n == r
  {
    DivUnique(place, n, q, r);
  }
}
