/**
 The resolving of samples into pixels: each pixel takes the colour that covers most of it,
 blended towards the background, through a cache of blends that cannot be told from none.
 */
module Coverage {
  import opened Utf8
  import opened FramePalette

  const SAMPLES := 4

  // ----- Blending ---------------------------------------------------------------------

  function Mix(front: Byte, back: Byte, covered: nat): (mixed: Byte)
    requires covered <= SAMPLES
  {
    (front * covered + back * (SAMPLES - covered) + SAMPLES / 2) / SAMPLES
  }

  // A mix lies between its parts, and full coverage is the front itself.
  lemma MixIsBetween(front: Byte, back: Byte, covered: nat)
    requires covered <= SAMPLES
    ensures front <= back ==> front <= Mix(front, back, covered) <= back
    ensures back <= front ==> back <= Mix(front, back, covered) <= front
    ensures Mix(front, back, SAMPLES) == front && Mix(front, back, 0) == back
  {
  }

  function Blend(table: seq<Rgba>, index: nat, covered: nat): (color: Rgba)
    requires index < |table| && covered <= SAMPLES
  {
    var front, back := table[index], table[0];
    Rgba(Mix(front.r, back.r, covered), Mix(front.g, back.g, covered),
         Mix(front.b, back.b, covered), 255)
  }

  // The value nearest to the weighted mean of four samples, the larger of two equally near.
  predicate MeanOf(mixed: Byte, front: Byte, back: Byte, covered: nat) {
    -2 < 4 * mixed - (front * covered + back * (4 - covered)) <= 2
  }

  lemma MixIsMean(front: Byte, back: Byte, covered: nat)
    requires covered <= SAMPLES
    ensures MeanOf(Mix(front, back, covered), front, back, covered)
  {
  }

  // Each channel is the mean of the same channel in front and back.
  predicate BlendOf(color: Rgba, front: Rgba, back: Rgba, covered: nat) {
    MeanOf(color.r, front.r, back.r, covered) && MeanOf(color.g, front.g, back.g, covered) &&
    MeanOf(color.b, front.b, back.b, covered)
  }

  lemma BlendIsMean(table: seq<Rgba>, index: nat, covered: nat)
    requires index < |table| && covered <= SAMPLES
    ensures BlendOf(Blend(table, index, covered), table[index], table[0], covered)
  {
    MixIsMean(table[index].r, table[0].r, covered);
    MixIsMean(table[index].g, table[0].g, covered);
    MixIsMean(table[index].b, table[0].b, covered);
  }

  // How a table shows a colour: as itself, if it is there; else the table is full, and the
  // nearest entry is shown.
  ghost predicate ShownAs(table: seq<Rgba>, budget: nat, color: Rgba, shown: Rgba) {
    exists k :: 0 <= k < |table| && table[k] == shown &&
      (Same(shown, color) || (|table| >= budget && !Has(table, color) && IsNearest(table, color, k)))
  }

  lemma LookupShows(table: seq<Rgba>, budget: nat, color: Rgba)
    requires table != [] && Distinct(table) && Settled(table, budget, color)
    ensures ShownAs(table, budget, color, table[Lookup(table, color)])
  {
    LookupIsNearest(table, color);
    if Has(table, color) {
      var k :| 0 <= k < |table| && Same(table[k], color);
      LookupFinds(table, color, k);
    }
  }

  // What a pixel is shown in, when `covered` of its samples are of one entry.
  function Shade(table: seq<Rgba>, index: nat, covered: nat, samples: nat): (shade: nat)
    requires index < |table| && samples <= SAMPLES
    ensures shade < |table|
  {
    if covered >= samples then index else Lookup(table, Blend(table, index, covered))
  }

  // The shade needs no new entry of the table.
  predicate ShadeSettled(table: seq<Rgba>, budget: nat, index: nat, covered: nat, samples: nat)
    requires index < |table| && samples <= SAMPLES
  {
    covered >= samples || Settled(table, budget, Blend(table, index, covered))
  }

  // Later tables of the frame show it in the same shade.
  lemma ShadeIsStable(
    table: seq<Rgba>, later: seq<Rgba>, budget: nat, index: nat, covered: nat, samples: nat)
    requires index < |table| && samples <= SAMPLES && Extends(later, table, budget) && Distinct(later)
    requires ShadeSettled(table, budget, index, covered, samples)
    ensures Shade(later, index, covered, samples) == Shade(table, index, covered, samples)
    ensures ShadeSettled(later, budget, index, covered, samples)
  {
    if covered < samples {
      assert Blend(later, index, covered) == Blend(table, index, covered);
      SettledIsStable(table, later, budget, Blend(table, index, covered));
    }
  }

  // ----- The winner of a pixel --------------------------------------------------------

  function Count(hits: seq<nat>, v: nat): (count: nat) {
    if hits == [] then 0 else Count(hits[..|hits| - 1], v) + (if hits[|hits| - 1] == v then 1 else 0)
  }

  // The most frequent entry; of several such, the smallest.
  ghost predicate Wins(hits: seq<nat>, winner: nat) {
    && winner in hits
    && forall v :: v in hits ==>
         Count(hits, v) < Count(hits, winner) || (Count(hits, v) == Count(hits, winner) && winner <= v)
  }

  function Best(hits: seq<nat>, n: nat): (best: (nat, nat))
    requires n <= |hits| && hits != []
  {
    if n == 0 then (hits[0], 0)
    else
      var best, candidate := Best(hits, n - 1), hits[n - 1];
      var count := Count(hits, candidate);
      if count > best.1 || (count == best.1 && candidate < best.0) then (candidate, count) else best
  }

  lemma {:induction false} BestIsBest(hits: seq<nat>, n: nat)
    requires 0 < n <= |hits|
    ensures Best(hits, n).0 in hits && Best(hits, n).1 == Count(hits, Best(hits, n).0)
    ensures forall k :: 0 <= k < n ==>
              || Count(hits, hits[k]) < Best(hits, n).1
              || (Count(hits, hits[k]) == Best(hits, n).1 && Best(hits, n).0 <= hits[k])
  {
    if n == 1 {
      CountPositive(hits, 0);
    } else {
      BestIsBest(hits, n - 1);
    }
  }

  lemma {:induction false} CountPositive(hits: seq<nat>, k: nat)
    requires k < |hits|
    ensures Count(hits, hits[k]) > 0
  {
    if k < |hits| - 1 {
      CountPositive(hits[..|hits| - 1], k);
    }
  }

  function Winner(hits: seq<nat>): (winner: nat)
    requires hits != []
  {
    Best(hits, |hits|).0
  }

  lemma WinnerWins(hits: seq<nat>)
    requires hits != []
    ensures Wins(hits, Winner(hits))
  {
    BestIsBest(hits, |hits|);
  }

  // The winner, as the loops find it.
  method FindWinner(hits: seq<nat>) returns (winner: nat)
    requires hits != []
    ensures winner == Winner(hits)
  {
    var winnerCount := 0;
    winner := hits[0];
    for i := 0 to |hits|
      invariant (winner, winnerCount) == Best(hits, i)
    {
      var count := 0;
      for j := 0 to |hits|
        invariant count == Count(hits[..j], hits[i])
      {
        assert hits[..j + 1][..j] == hits[..j];
        count := count + (if hits[j] == hits[i] then 1 else 0);
      }
      assert hits[..|hits|] == hits;
      if count > winnerCount || (count == winnerCount && hits[i] < winner) {
        winner, winnerCount := hits[i], count;
      }
    }
  }

  // ----- Pixels -----------------------------------------------------------------------

  function NonZero(samples: seq<nat>): (hits: seq<nat>)
    ensures |hits| <= |samples|
  {
    if samples == [] then []
    else NonZero(samples[..|samples| - 1]) +
         (if samples[|samples| - 1] != 0 then [samples[|samples| - 1]] else [])
  }

  lemma {:induction false} HitsAreSamples(samples: seq<nat>)
    ensures forall v :: v in NonZero(samples) ==> v in samples && v != 0
  {
    if samples != [] {
      HitsAreSamples(samples[..|samples| - 1]);
    }
  }

  predicate InTable(samples: seq<nat>, table: seq<Rgba>) {
    forall k :: 0 <= k < |samples| ==> samples[k] < |table|
  }

  lemma WinnerInTable(samples: seq<nat>, table: seq<Rgba>)
    requires InTable(samples, table) && NonZero(samples) != []
    ensures Winner(NonZero(samples)) < |table|
  {
    HitsAreSamples(samples);
    WinnerWins(NonZero(samples));
  }

  // The index a pixel with these samples is shown in.
  function PixelIndex(table: seq<Rgba>, samples: seq<nat>): (index: nat)
    requires table != [] && InTable(samples, table) && |samples| <= SAMPLES
    ensures index < |table|
  {
    var hits := NonZero(samples);
    if hits == [] then 0
    else
      WinnerInTable(samples, table);
      Shade(table, Winner(hits), |hits|, |samples|)
  }

  predicate PixelSettled(table: seq<Rgba>, budget: nat, samples: seq<nat>)
    requires InTable(samples, table) && |samples| <= SAMPLES
  {
    var hits := NonZero(samples);
    hits == [] || (WinnerInTable(samples, table); ShadeSettled(table, budget, Winner(hits), |hits|, |samples|))
  }

  lemma PixelIsStable(table: seq<Rgba>, later: seq<Rgba>, budget: nat, samples: seq<nat>)
    requires table != [] && InTable(samples, table) && |samples| <= SAMPLES
    requires Extends(later, table, budget) && Distinct(later) && PixelSettled(table, budget, samples)
    ensures InTable(samples, later) && PixelSettled(later, budget, samples)
    ensures PixelIndex(later, samples) == PixelIndex(table, samples)
    ensures later[PixelIndex(later, samples)] == table[PixelIndex(table, samples)]
  {
    var hits := NonZero(samples);
    if hits != [] {
      WinnerInTable(samples, table);
      ShadeIsStable(table, later, budget, Winner(hits), |hits|, |samples|);
    }
  }

  // A pixel none of whose samples is covered shows the background; one that is covered in
  // full by one entry shows that entry.
  lemma PixelExtremes(table: seq<Rgba>, samples: seq<nat>, v: nat)
    requires table != [] && InTable(samples, table) && |samples| <= SAMPLES
    requires samples != [] && v < |table| && forall k :: 0 <= k < |samples| ==> samples[k] == v
    ensures PixelIndex(table, samples) == v
  {
    if v != 0 {
      AllHits(samples);
      WinnerWins(samples);
    } else {
      NoHits(samples);
    }
  }

  lemma {:induction false} NoHits(samples: seq<nat>)
    requires forall k :: 0 <= k < |samples| ==> samples[k] == 0
    ensures NonZero(samples) == []
  {
    if samples != [] {
      NoHits(samples[..|samples| - 1]);
    }
  }

  lemma {:induction false} AllHits(samples: seq<nat>)
    requires forall k :: 0 <= k < |samples| ==> samples[k] != 0
    ensures NonZero(samples) == samples
  {
    if samples != [] {
      AllHits(samples[..|samples| - 1]);
    }
  }

  // A frame is rastered at its own scale or at twice that.
  function Scaled(n: nat, scale: nat): (m: nat) {
    if scale == 1 then n else 2 * n
  }

  function SamplesAt(scale: nat): (samples: nat) {
    if scale == 1 then 1 else SAMPLES
  }

  predicate Covers(subpixels: seq<seq<nat>>, y: nat, x: nat, scale: nat) {
    Scaled(y, scale) + scale <= |subpixels| &&
    forall row :: 0 <= row < |subpixels| ==> Scaled(x, scale) + scale <= |subpixels[row]|
  }

  // The first samples of one row of a pixel, and those of its first rows.
  function RowOf(subpixels: seq<seq<nat>>, y: nat, x: nat, scale: nat, row: nat, n: nat): (samples: seq<nat>)
    requires row < scale && n <= scale && Covers(subpixels, y, x, scale)
    ensures |samples| == n
  {
    if n == 0 then []
    else RowOf(subpixels, y, x, scale, row, n - 1) + [subpixels[Scaled(y, scale) + row][Scaled(x, scale) + n - 1]]
  }

  function RowsOf(subpixels: seq<seq<nat>>, y: nat, x: nat, scale: nat, rows: nat): (samples: seq<nat>)
    requires 1 <= scale <= 2 && rows <= scale && Covers(subpixels, y, x, scale)
    ensures |samples| == Scaled(rows, scale)
  {
    if rows == 0 then []
    else RowsOf(subpixels, y, x, scale, rows - 1) + RowOf(subpixels, y, x, scale, rows - 1, scale)
  }

  function SamplesOf(subpixels: seq<seq<nat>>, y: nat, x: nat, scale: nat): (samples: seq<nat>)
    requires 1 <= scale <= 2 && Covers(subpixels, y, x, scale)
    ensures |samples| == SamplesAt(scale)
  {
    RowsOf(subpixels, y, x, scale, scale)
  }

  // A pixel of this colour shows what its samples call for.
  ghost predicate ShowsIn(table: seq<Rgba>, budget: nat, color: Rgba, samples: seq<nat>) {
    && table != [] && |samples| <= SAMPLES && InTable(samples, table) && PixelSettled(table, budget, samples)
    && color == table[PixelIndex(table, samples)]
  }

  lemma ShowsLater(table: seq<Rgba>, later: seq<Rgba>, budget: nat, color: Rgba, samples: seq<nat>)
    requires ShowsIn(table, budget, color, samples) && Extends(later, table, budget) && Distinct(later)
    ensures ShowsIn(later, budget, color, samples)
  {
    PixelIsStable(table, later, budget, samples);
  }

  predicate FitsAt(table: seq<Rgba>, subpixels: seq<seq<nat>>, scale: nat, y: nat, x: nat) {
    1 <= scale <= 2 && Covers(subpixels, y, x, scale) && InTable(SamplesOf(subpixels, y, x, scale), table)
  }

  ghost predicate ShowsAt(
    table: seq<Rgba>, budget: nat, color: Rgba, subpixels: seq<seq<nat>>, scale: nat, y: nat, x: nat)
  {
    && 1 <= scale <= 2 && Covers(subpixels, y, x, scale)
    && ShowsIn(table, budget, color, SamplesOf(subpixels, y, x, scale))
  }

  lemma FitsLater(table: seq<Rgba>, later: seq<Rgba>, subpixels: seq<seq<nat>>, scale: nat, y: nat, x: nat)
    requires FitsAt(table, subpixels, scale, y, x) && |table| <= |later|
    ensures FitsAt(later, subpixels, scale, y, x)
  {
  }

  lemma ShadedPixel(table: seq<Rgba>, budget: nat, samples: seq<nat>)
    requires table != [] && InTable(samples, table) && |samples| <= SAMPLES && NonZero(samples) != []
    ensures var hits := NonZero(samples);
            && Winner(hits) < |table|
            && PixelIndex(table, samples) == Shade(table, Winner(hits), |hits|, |samples|)
            && PixelSettled(table, budget, samples) ==
               ShadeSettled(table, budget, Winner(hits), |hits|, |samples|)
  {
    WinnerInTable(samples, table);
  }

  // ----- What a pixel depicts ---------------------------------------------------------

  lemma {:induction false} CountIsMultiset(hits: seq<nat>, v: nat)
    ensures Count(hits, v) == multiset(hits)[v]
  {
    if hits != [] {
      CountIsMultiset(hits[..|hits| - 1], v);
      assert hits == hits[..|hits| - 1] + [hits[|hits| - 1]];
    }
  }

  lemma {:induction false} HitsCount(samples: seq<nat>)
    ensures multiset(NonZero(samples)) == multiset(samples)[0 := 0]
    ensures |NonZero(samples)| == |samples| - multiset(samples)[0]
  {
    if samples != [] {
      var init, last := samples[..|samples| - 1], samples[|samples| - 1];
      HitsCount(init);
      assert samples == init + [last];
    }
  }

  // The most frequent entry among the samples that are not background, the smallest of
  // several.
  ghost predicate Dominates(samples: seq<nat>, winner: nat) {
    && winner in samples && winner != 0
    && forall v :: v in samples && v != 0 ==>
         multiset(samples)[v] < multiset(samples)[winner] ||
         (multiset(samples)[v] == multiset(samples)[winner] && winner <= v)
  }

  lemma WinnerDominates(samples: seq<nat>)
    requires NonZero(samples) != []
    ensures Dominates(samples, Winner(NonZero(samples)))
  {
    var hits := NonZero(samples);
    HitsCount(samples);
    HitsAreSamples(samples);
    WinnerWins(hits);
    CountIsMultiset(hits, Winner(hits));
    forall v | v in samples && v != 0
      ensures v in hits && Count(hits, v) == multiset(samples)[v]
    {
      CountIsMultiset(hits, v);
      assert multiset(hits)[v] == multiset(samples)[v] > 0;
    }
  }

  // The colour of a pixel: the background if no sample is covered; the dominating entry if
  // all are; else this entry's blend with the background, by how many are.
  ghost predicate Depicts(table: seq<Rgba>, budget: nat, color: Rgba, samples: seq<nat>) {
    && table != []
    && var covered := |samples| - multiset(samples)[0];
       if covered == 0 then color == table[0]
       else
         exists winner: nat :: winner < |table| && Dominates(samples, winner) &&
           if covered == |samples| then color == table[winner]
           else BlendShown(table, budget, color, winner, covered)
  }

  ghost predicate BlendShown(table: seq<Rgba>, budget: nat, color: Rgba, winner: nat, covered: nat)
    requires winner < |table|
  {
    exists blend :: BlendOf(blend, table[winner], table[0], covered) && ShownAs(table, budget, blend, color)
  }

  lemma ShowingDepicts(table: seq<Rgba>, budget: nat, color: Rgba, samples: seq<nat>)
    requires ShowsIn(table, budget, color, samples) && Distinct(table)
    ensures Depicts(table, budget, color, samples)
  {
    HitsCount(samples);
    var hits := NonZero(samples);
    if hits != [] {
      ShadedPixel(table, budget, samples);
      WinnerDominates(samples);
      if |hits| < |samples| {
        BlendIsMean(table, Winner(hits), |hits|);
        LookupShows(table, budget, Blend(table, Winner(hits), |hits|));
        assert BlendShown(table, budget, color, Winner(hits), |hits|);
      }
    }
  }

  // The samples of a pixel: the square of subpixels that it covers, row by row.
  ghost predicate AreSamples(samples: seq<nat>, subpixels: seq<seq<nat>>, scale: nat, y: nat, x: nat) {
    && 1 <= scale <= 2 && |samples| == scale * scale
    && forall a, b :: 0 <= a < scale && 0 <= b < scale ==> SampleAt(samples, subpixels, scale, y, x, a, b)
  }

  predicate SampleAt(
    samples: seq<nat>, subpixels: seq<seq<nat>>, scale: nat, y: nat, x: nat, a: nat, b: nat)
  {
    && a * scale + b < |samples| && y * scale + a < |subpixels| && x * scale + b < |subpixels[y * scale + a]|
    && samples[a * scale + b] == subpixels[y * scale + a][x * scale + b]
  }

  lemma SamplesAre(subpixels: seq<seq<nat>>, y: nat, x: nat, scale: nat)
    requires 1 <= scale <= 2 && Covers(subpixels, y, x, scale)
    ensures AreSamples(SamplesOf(subpixels, y, x, scale), subpixels, scale, y, x)
  {
    assert RowsOf(subpixels, y, x, scale, 0) == [];
    assert RowsOf(subpixels, y, x, scale, 1) == RowOf(subpixels, y, x, scale, 0, scale);
    assert RowOf(subpixels, y, x, scale, 0, 0) == [];
    assert RowOf(subpixels, y, x, scale, 0, 1) == [subpixels[y * scale][x * scale]];
    if scale == 2 {
      assert RowOf(subpixels, y, x, 2, 0, 2) == [subpixels[y * 2][x * 2], subpixels[y * 2][x * 2 + 1]];
      assert RowOf(subpixels, y, x, 2, 1, 0) == [];
      assert RowOf(subpixels, y, x, 2, 1, 1) == [subpixels[y * 2 + 1][x * 2]];
      assert RowOf(subpixels, y, x, 2, 1, 2) == [subpixels[y * 2 + 1][x * 2], subpixels[y * 2 + 1][x * 2 + 1]];
    }
  }

  // A pixel of the frame depicts what is under it.
  ghost predicate DepictsAt(
    table: seq<Rgba>, budget: nat, color: Rgba, subpixels: seq<seq<nat>>, scale: nat, y: nat, x: nat)
  {
    exists samples :: AreSamples(samples, subpixels, scale, y, x) && Depicts(table, budget, color, samples)
  }

  lemma ShowingDepictsAt(
    table: seq<Rgba>, budget: nat, color: Rgba, subpixels: seq<seq<nat>>, scale: nat, y: nat, x: nat)
    requires ShowsAt(table, budget, color, subpixels, scale, y, x) && Distinct(table)
    ensures DepictsAt(table, budget, color, subpixels, scale, y, x)
  {
    SamplesAre(subpixels, y, x, scale);
    ShowingDepicts(table, budget, color, SamplesOf(subpixels, y, x, scale));
  }

  class Resolver {
    const palette: FramePalette
    const cache: array<int>
    var samples: nat

    ghost predicate Cached(slot: nat)
      requires cache.Length == 256 * SAMPLES && slot < cache.Length && palette.size <= palette.entries.Length
      reads this, cache, palette, palette.entries
    {
      cache[slot] >= 0 ==>
        var index, covered := slot / SAMPLES, slot % SAMPLES;
        && samples == SAMPLES && index < palette.size
        && ShadeSettled(palette.Table(), palette.budget, index, covered, samples)
        && cache[slot] == Shade(palette.Table(), index, covered, samples)
    }

    // Every cached blend is the one that would be found without the cache.
    ghost predicate Valid()
      reads this, cache, palette, palette.entries
    {
      && palette.Valid() && (samples == 1 || samples == SAMPLES) && cache.Length == 256 * SAMPLES
      && forall slot :: 0 <= slot < cache.Length ==> Cached(slot)
    }

    constructor (background: Rgba)
      ensures Valid() && palette.Table() == [background] && samples == 1
      ensures fresh(palette) && fresh(palette.entries) && fresh(cache)
    {
      palette := new FramePalette(background);
      cache := new int[256 * SAMPLES](_ => -1);
      samples := 1;
    }

    // The part of render that starts a frame.
    method StartFrame(background: Rgba, budget: int, scale: nat)
      requires Valid() && (scale == 1 || scale == 2)
      modifies this, cache, palette, palette.entries
      ensures Valid() && palette.Table() == [background] && samples == SamplesAt(scale)
      ensures palette.budget == if budget < 2 then 2 else if budget > 256 then 256 else budget
      ensures forall slot :: 0 <= slot < cache.Length ==> cache[slot] == -1
    {
      palette.Reset(background, budget);
      for slot := 0 to cache.Length
        modifies cache
        invariant palette.Valid() && palette.Table() == [background]
        invariant forall k :: 0 <= k < slot ==> cache[k] == -1
      {
        cache[slot] := -1;
      }
      samples := scale * scale;
      assert samples == SamplesAt(scale);
    }

    // A blend joins the table, and everything cached stays right.
    method InternBlend(color: Rgba) returns (index: nat)
      requires Valid()
      modifies palette`size, palette.entries
      ensures Valid() && palette.Table() == Interned(old(palette.Table()), palette.budget, color)
      ensures Extends(palette.Table(), old(palette.Table()), palette.budget)
      ensures index == Lookup(palette.Table(), color) && Settled(palette.Table(), palette.budget, color)
    {
      ghost var table := palette.Table();
      index := palette.Intern(color);
      forall slot | 0 <= slot < cache.Length && cache[slot] >= 0
        ensures Cached(slot)
      {
        assert old(Cached(slot));
        ShadeIsStable(table, palette.Table(), palette.budget, slot / SAMPLES, slot % SAMPLES, samples);
      }
    }

    // coverage_index: what the blend would be without the cache, and the table it would
    // leave.
    method CoverageIndex(index: nat, covered: nat) returns (shade: nat)
      requires Valid() && index < palette.size && covered > 0
      modifies palette`size, palette.entries, cache
      ensures Valid() && Extends(palette.Table(), old(palette.Table()), palette.budget)
      ensures shade == Shade(palette.Table(), index, covered, samples)
      ensures ShadeSettled(palette.Table(), palette.budget, index, covered, samples)
      ensures palette.Table() ==
              if covered >= samples then old(palette.Table())
              else Interned(old(palette.Table()), palette.budget, Blend(old(palette.Table()), index, covered))
      ensures covered >= samples ==> shade == index
      ensures covered < samples ==>
                BlendShown(palette.Table(), palette.budget, palette.Table()[shade], index, covered)
    {
      if covered >= samples {
        return index;
      }
      shade := Blended(index, covered);
      BlendIsMean(palette.Table(), index, covered);
      LookupShows(palette.Table(), palette.budget, Blend(palette.Table(), index, covered));
    }

    // A blend, from the cache or fresh; and then it is in the cache.
    method Blended(index: nat, covered: nat) returns (shade: nat)
      requires Valid() && index < palette.size && 0 < covered < samples
      modifies palette`size, palette.entries, cache
      ensures index * 4 + covered < cache.Length && cache[index * 4 + covered] == shade
      ensures Valid() && Extends(palette.Table(), old(palette.Table()), palette.budget)
      ensures shade == Shade(palette.Table(), index, covered, samples)
      ensures ShadeSettled(palette.Table(), palette.budget, index, covered, samples)
      ensures palette.Table() ==
              Interned(old(palette.Table()), palette.budget, Blend(old(palette.Table()), index, covered))
    {
      var slot := index * SAMPLES + covered;
      assert slot / SAMPLES == index && slot % SAMPLES == covered;
      if cache[slot] >= 0 {
        assert Cached(slot);
        return cache[slot];
      }
      shade := Fresh(index, covered);
      Store(slot, shade);
    }

    // A blend that is not cached.
    method Fresh(index: nat, covered: nat) returns (shade: nat)
      requires Valid() && index < palette.size && covered < samples == SAMPLES
      modifies palette`size, palette.entries
      ensures Valid() && Extends(palette.Table(), old(palette.Table()), palette.budget)
      ensures shade == Shade(palette.Table(), index, covered, samples)
      ensures ShadeSettled(palette.Table(), palette.budget, index, covered, samples)
      ensures palette.Table() ==
              Interned(old(palette.Table()), palette.budget, Blend(old(palette.Table()), index, covered))
    {
      var color := Blend(palette.Table(), index, covered);
      shade := InternBlend(color);
      assert Blend(palette.Table(), index, covered) == color;
    }

    method Store(slot: nat, shade: nat)
      requires Valid() && samples == SAMPLES && slot < cache.Length && slot / SAMPLES < palette.size
      requires ShadeSettled(palette.Table(), palette.budget, slot / SAMPLES, slot % SAMPLES, samples)
      requires shade == Shade(palette.Table(), slot / SAMPLES, slot % SAMPLES, samples)
      modifies cache
      ensures Valid() && cache[slot] == shade
    {
      cache[slot] := shade;
      forall k | 0 <= k < cache.Length
        ensures Cached(k)
      {
        assert k != slot ==> old(Cached(k));
      }
    }

    // The samples of a pixel that are not background, in the order of the loops.
    method Gather(subpixels: seq<seq<nat>>, y: nat, x: nat, scale: nat) returns (hits: seq<nat>)
      requires 1 <= scale <= 2 && Covers(subpixels, y, x, scale)
      ensures hits == NonZero(SamplesOf(subpixels, y, x, scale))
    {
      hits := [];
      for subY := 0 to scale
        invariant hits == NonZero(RowsOf(subpixels, y, x, scale, subY))
      {
        ghost var above := RowsOf(subpixels, y, x, scale, subY);
        assert above + RowOf(subpixels, y, x, scale, subY, 0) == above;
        for subX := 0 to scale
          invariant hits == NonZero(above + RowOf(subpixels, y, x, scale, subY, subX))
        {
          var index := subpixels[Scaled(y, scale) + subY][Scaled(x, scale) + subX];
          ghost var row := RowOf(subpixels, y, x, scale, subY, subX);
          NonZeroMore(above + row, index);
          assert above + (row + [index]) == above + row + [index];
          if index != 0 {
            hits := hits + [index];
          }
        }
      }
    }

    // One pixel, from its samples that are not background.
    method Pixel(hits: seq<nat>, ghost taken: seq<nat>) returns (color: Rgba)
      requires Valid() && hits == NonZero(taken) && |taken| == samples && InTable(taken, palette.Table())
      modifies palette`size, palette.entries, cache
      ensures Valid() && Extends(palette.Table(), old(palette.Table()), palette.budget)
      ensures ShowsIn(palette.Table(), palette.budget, color, taken)
    {
      if hits == [] {
        return palette.entries[0];
      }
      ShadedPixel(palette.Table(), palette.budget, taken);
      var winner := FindWinner(hits);
      var index := CoverageIndex(winner, |hits|);
      ShadedPixel(palette.Table(), palette.budget, taken);
      color := palette.entries[index];
    }

    // The pixels of the frame, up to one of them, show what their samples call for.
    ghost predicate ShowsUpTo(frame: array2<Rgba>, subpixels: seq<seq<nat>>, scale: nat, y: nat, x: nat)
      reads frame, palette, palette.entries
    {
      palette.Valid() && ShowBefore(frame, palette.Table(), palette.budget, subpixels, scale, y, x)
    }

    // The raster is a frame of some size at a scale, and names entries of the table.
    ghost predicate Fits(height: nat, width: nat, subpixels: seq<seq<nat>>, scale: nat)
      reads palette, palette.entries
    {
      && palette.Valid()
      && forall y, x :: 0 <= y < height && 0 <= x < width ==> FitsAt(palette.Table(), subpixels, scale, y, x)
    }

    // resolve: every pixel shows what its samples call for in the final table, although
    // the table grows from pixel to pixel.
    method Resolve(frame: array2<Rgba>, subpixels: seq<seq<nat>>, scale: nat)
      requires Valid() && samples == SamplesAt(scale) && Fits(frame.Length0, frame.Length1, subpixels, scale)
      modifies palette`size, palette.entries, cache, frame
      ensures Valid() && Extends(palette.Table(), old(palette.Table()), palette.budget)
      ensures ShowsUpTo(frame, subpixels, scale, frame.Length0, 0)
      ensures forall v, u :: 0 <= v < frame.Length0 && 0 <= u < frame.Length1 ==>
                DepictsAt(palette.Table(), palette.budget, frame[v, u], subpixels, scale, v, u)
    {
      for y := 0 to frame.Length0
        invariant Valid() && Extends(palette.Table(), old(palette.Table()), palette.budget)
        invariant Fits(frame.Length0, frame.Length1, subpixels, scale) && ShowsUpTo(frame, subpixels, scale, y, 0)
      {
        for x := 0 to frame.Length1
          invariant Valid() && Extends(palette.Table(), old(palette.Table()), palette.budget)
          invariant Fits(frame.Length0, frame.Length1, subpixels, scale) && ShowsUpTo(frame, subpixels, scale, y, x)
        {
          ResolvePixel(frame, subpixels, scale, y, x);
        }
      }
      forall v, u | 0 <= v < frame.Length0 && 0 <= u < frame.Length1
        ensures DepictsAt(palette.Table(), palette.budget, frame[v, u], subpixels, scale, v, u)
      {
        ShowingDepictsAt(palette.Table(), palette.budget, frame[v, u], subpixels, scale, v, u);
      }
    }

    // The colour of a pixel, which leaves those before it showing what they did.
    method PixelAt(frame: array2<Rgba>, subpixels: seq<seq<nat>>, scale: nat, y: nat, x: nat) returns (color: Rgba)
      requires Valid() && samples == SamplesAt(scale) && Fits(frame.Length0, frame.Length1, subpixels, scale)
      requires y < frame.Length0 && x < frame.Length1 && ShowsUpTo(frame, subpixels, scale, y, x)
      modifies palette`size, palette.entries, cache
      ensures Valid() && Extends(palette.Table(), old(palette.Table()), palette.budget)
      ensures Fits(frame.Length0, frame.Length1, subpixels, scale) && ShowsUpTo(frame, subpixels, scale, y, x)
      ensures ShowsAt(palette.Table(), palette.budget, color, subpixels, scale, y, x)
    {
      assert FitsAt(palette.Table(), subpixels, scale, y, x);
      var hits := Gather(subpixels, y, x, scale);
      ghost var table := palette.Table();
      color := Pixel(hits, SamplesOf(subpixels, y, x, scale));
      forall v, u | 0 <= v < frame.Length0 && 0 <= u < frame.Length1
        ensures FitsAt(palette.Table(), subpixels, scale, v, u)
      {
        FitsLater(table, palette.Table(), subpixels, scale, v, u);
      }
      forall v, u | 0 <= v < frame.Length0 && 0 <= u < frame.Length1 && (v < y || (v == y && u < x))
        ensures ShowsAt(palette.Table(), palette.budget, frame[v, u], subpixels, scale, v, u)
      {
        ShowsLater(table, palette.Table(), palette.budget, frame[v, u], SamplesOf(subpixels, v, u, scale));
      }
    }

    // One pixel of the frame.
    method ResolvePixel(frame: array2<Rgba>, subpixels: seq<seq<nat>>, scale: nat, y: nat, x: nat)
      requires Valid() && samples == SamplesAt(scale) && Fits(frame.Length0, frame.Length1, subpixels, scale)
      requires y < frame.Length0 && x < frame.Length1 && ShowsUpTo(frame, subpixels, scale, y, x)
      modifies palette`size, palette.entries, cache, frame
      ensures Valid() && Extends(palette.Table(), old(palette.Table()), palette.budget)
      ensures Fits(frame.Length0, frame.Length1, subpixels, scale)
      ensures ShowsUpTo(frame, subpixels, scale, y, x + 1)
    {
      var color := PixelAt(frame, subpixels, scale, y, x);
      ghost var table, budget := palette.Table(), palette.budget;
      PutPixel(frame, color, table, budget, subpixels, scale, y, x);
      assert palette.Table() == table;
    }
  }

  // The pixels of a frame, up to one of them, show what their samples call for.
  ghost predicate ShowBefore(
    frame: array2<Rgba>, table: seq<Rgba>, budget: nat, subpixels: seq<seq<nat>>, scale: nat, y: nat, x: nat)
    reads frame
  {
    forall v, u :: 0 <= v < frame.Length0 && 0 <= u < frame.Length1 && (v < y || (v == y && u < x)) ==>
      ShowsAt(table, budget, frame[v, u], subpixels, scale, v, u)
  }

  // Writes a pixel that shows what its samples call for.
  method PutPixel(
    frame: array2<Rgba>, color: Rgba, ghost table: seq<Rgba>, ghost budget: nat, subpixels: seq<seq<nat>>, scale: nat,
    y: nat, x: nat)
    requires y < frame.Length0 && x < frame.Length1 && ShowsAt(table, budget, color, subpixels, scale, y, x)
    requires ShowBefore(frame, table, budget, subpixels, scale, y, x)
    modifies frame
    ensures ShowBefore(frame, table, budget, subpixels, scale, y, x + 1)
  {
    frame[y, x] := color;
    forall v, u | 0 <= v < frame.Length0 && 0 <= u < frame.Length1 && (v < y || (v == y && u <= x))
      ensures ShowsAt(table, budget, frame[v, u], subpixels, scale, v, u)
    {
      if v == y && u == x {
        assert frame[v, u] == color;
      } else {
        assert frame[v, u] == old(frame[v, u]);
      }
    }
  }

  lemma NonZeroMore(samples: seq<nat>, v: nat)
    ensures NonZero(samples + [v]) == NonZero(samples) + (if v != 0 then [v] else [])
  {
    assert (samples + [v])[..|samples|] == samples;
  }
}
