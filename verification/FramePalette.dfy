/**
 The colour table of a frame: a bounded list of distinct colours that only grows, in which
 every colour that was asked for keeps its index.
 */
module FramePalette {
  import opened Utf8

  datatype Rgba = Rgba(r: Byte, g: Byte, b: Byte, a: Byte)

  // Colours are told apart by what is seen of them; opacity does not count.
  predicate Same(c: Rgba, d: Rgba) {
    c.r == d.r && c.g == d.g && c.b == d.b
  }

  // The square of a difference, as a sum of odd numbers.
  function Square(n: int): (s: nat)
    ensures s > 0 <==> n != 0
    decreases if n < 0 then 1 - n else n
  {
    if n == 0 then 0 else if n < 0 then Square(-n) else Square(n - 1) + 2 * n - 1
  }

  lemma {:induction false} SquareIsProduct(n: int)
    ensures Square(n) == n * n
    decreases if n < 0 then 1 - n else n
  {
    if n < 0 {
      SquareIsProduct(-n);
      assert -n * -n == n * n;
    } else if n > 0 {
      SquareIsProduct(n - 1);
      OneLess(n);
    }
  }

  lemma OneLess(n: int)
    ensures (n - 1) * (n - 1) == n * n - 2 * n + 1
  {
    assert (n - 1) * (n - 1) == n * (n - 1) - (n - 1);
    assert n * (n - 1) == n * n - n;
  }

  function Distance(c: Rgba, d: Rgba): (distance: nat)
    ensures distance == 0 <==> Same(c, d)
  {
    Square(c.r - d.r) + Square(c.g - d.g) + Square(c.b - d.b)
  }

  // It is the sum of the squared differences of the channels.
  lemma DistanceIsSquares(c: Rgba, d: Rgba)
    ensures Distance(c, d) == Squares(c.r - d.r, c.g - d.g, c.b - d.b)
  {
    SquareIsProduct(c.r - d.r);
    SquareIsProduct(c.g - d.g);
    SquareIsProduct(c.b - d.b);
  }

  function Squares(x: int, y: int, z: int): (sum: int) {
    x * x + y * y + z * z
  }

  // The first entry among the first n that is as near to a colour as any of them.
  function NearestOf(entries: seq<Rgba>, color: Rgba, n: nat): (index: nat)
    requires 0 < n <= |entries|
    ensures index < n
  {
    if n == 1 then 0
    else
      var best := NearestOf(entries, color, n - 1);
      if Distance(entries[n - 1], color) < Distance(entries[best], color) then n - 1 else best
  }

  lemma {:induction false} NearestIsNearest(entries: seq<Rgba>, color: Rgba, n: nat)
    requires 0 < n <= |entries|
    ensures var best := NearestOf(entries, color, n);
            && (forall k :: 0 <= k < n ==> Distance(entries[best], color) <= Distance(entries[k], color))
            && (forall k :: 0 <= k < best ==> Distance(entries[best], color) < Distance(entries[k], color))
  {
    if n > 1 {
      NearestIsNearest(entries, color, n - 1);
    }
  }

  // The index of a colour: of its own entry if there is one, else of the nearest.
  function Lookup(entries: seq<Rgba>, color: Rgba): (index: nat)
    requires entries != []
    ensures index < |entries|
  {
    NearestOf(entries, color, |entries|)
  }

  // The first of the entries for which no other has a smaller sum of squared differences.
  ghost predicate IsNearest(entries: seq<Rgba>, color: Rgba, index: nat) {
    && index < |entries|
    && forall k :: 0 <= k < |entries| ==>
         var c, d := entries[index], entries[k];
         var near := Squares(c.r - color.r, c.g - color.g, c.b - color.b);
         var other := Squares(d.r - color.r, d.g - color.g, d.b - color.b);
         near <= other && (k < index ==> near < other)
  }

  lemma LookupIsNearest(entries: seq<Rgba>, color: Rgba)
    requires entries != []
    ensures IsNearest(entries, color, Lookup(entries, color))
  {
    NearestIsNearest(entries, color, |entries|);
    DistanceIsSquares(entries[Lookup(entries, color)], color);
    forall k | 0 <= k < |entries|
      ensures Distance(entries[k], color) ==
              Squares(entries[k].r - color.r, entries[k].g - color.g, entries[k].b - color.b)
    {
      DistanceIsSquares(entries[k], color);
    }
  }

  predicate Has(entries: seq<Rgba>, color: Rgba) {
    exists k :: 0 <= k < |entries| && Same(entries[k], color)
  }

  predicate Distinct(entries: seq<Rgba>) {
    forall i, j :: 0 <= i < j < |entries| ==> !Same(entries[i], entries[j])
  }

  // A colour that is in the table is its own nearest entry.
  lemma LookupFinds(entries: seq<Rgba>, color: Rgba, k: nat)
    requires k < |entries| && Same(entries[k], color) && Distinct(entries)
    ensures Lookup(entries, color) == k
  {
    NearestIsNearest(entries, color, |entries|);
    var best := Lookup(entries, color);
    assert Distance(entries[k], color) == 0;
    assert Same(entries[best], color);
  }

  // What interning a colour makes of the table.
  function Interned(entries: seq<Rgba>, budget: nat, color: Rgba): (after: seq<Rgba>) {
    if Has(entries, color) || |entries| >= budget then entries else entries + [color]
  }

  // A table that has taken a colour in, or could not.
  predicate Settled(entries: seq<Rgba>, budget: nat, color: Rgba) {
    Has(entries, color) || |entries| >= budget
  }

  // Later tables of the same frame.
  predicate Extends(later: seq<Rgba>, entries: seq<Rgba>, budget: nat) {
    entries <= later && (|entries| < |later| ==> |later| <= budget)
  }

  // Once settled, a colour keeps its index, whatever is interned after it.
  lemma SettledIsStable(entries: seq<Rgba>, later: seq<Rgba>, budget: nat, color: Rgba)
    requires entries != [] && Settled(entries, budget, color) && Extends(later, entries, budget) && Distinct(later)
    ensures Lookup(later, color) == Lookup(entries, color) && Settled(later, budget, color)
  {
    if Has(entries, color) {
      var k :| 0 <= k < |entries| && Same(entries[k], color);
      assert later[k] == entries[k];
      assert Distinct(entries) by {
        forall i, j | 0 <= i < j < |entries| ensures !Same(entries[i], entries[j]) {
          assert !Same(later[i], later[j]);
        }
      }
      LookupFinds(entries, color, k);
      LookupFinds(later, color, k);
    } else {
      assert later == entries;
    }
  }

  // A colour is shown as the background exactly when it is the background's colour, or the
  // table is full without it and no entry is nearer than the background.
  lemma ShownAsBackground(entries: seq<Rgba>, budget: nat, color: Rgba)
    requires entries != [] && Distinct(entries) && Settled(entries, budget, color)
    ensures Lookup(entries, color) == 0 <==>
            || Same(entries[0], color)
            || (!Has(entries, color) &&
                forall k :: 0 <= k < |entries| ==> Distance(entries[0], color) <= Distance(entries[k], color))
  {
    NearestIsNearest(entries, color, |entries|);
    if Has(entries, color) {
      var k :| 0 <= k < |entries| && Same(entries[k], color);
      LookupFinds(entries, color, k);
    }
  }

  // So a full table can cost a frame its geometry: a colour unlike the background's, which
  // would be drawn in the background's entry.
  lemma FullTableHidesColor() returns (entries: seq<Rgba>, color: Rgba)
    ensures |entries| == 2 && Distinct(entries) && Settled(entries, 2, color)
    ensures !Same(entries[0], color) && Lookup(entries, color) == 0
  {
    entries, color := [Rgba(0, 0, 0, 255), Rgba(2, 0, 0, 255)], Rgba(1, 0, 0, 255);
    assert Distance(entries[0], color) == Distance(entries[1], color);
    assert NearestOf(entries, color, 1) == 0;
    assert NearestOf(entries, color, 2) == 0;
  }

  class FramePalette {
    const entries: array<Rgba>
    var size: nat
    var budget: nat

    ghost predicate Valid()
      reads this, entries
    {
      && entries.Length == 256 && 2 <= budget <= 256 && 1 <= size <= budget
      && Distinct(entries[..size])
    }

    // The table so far.
    function Table(): (table: seq<Rgba>)
      requires size <= entries.Length
      reads this, entries
    {
      entries[..size]
    }

    constructor (background: Rgba)
      ensures Valid() && Table() == [background] && budget == 256 && fresh(entries)
    {
      entries := new Rgba[256](_ => background);
      size, budget := 1, 256;
    }

    // reset: a new frame, with the background as its first entry.
    method Reset(background: Rgba, budget: int)
      requires entries.Length == 256
      modifies this, entries
      ensures Valid() && Table() == [background]
      ensures this.budget == if budget < 2 then 2 else if budget > 256 then 256 else budget
    {
      this.budget := if budget < 2 then 2 else if budget > 256 then 256 else budget;
      entries[0] := background;
      size := 1;
    }

    // intern: the index of a colour, which is where any later table of the frame has it.
    method Intern(color: Rgba) returns (index: nat)
      requires Valid()
      modifies `size, entries
      ensures Valid() && Table() == Interned(old(Table()), budget, color)
      ensures index == Lookup(Table(), color) && Settled(Table(), budget, color)
    {
      ghost var table := Table();
      for entry := 0 to size
        invariant Valid() && Table() == table
        invariant forall k :: 0 <= k < entry ==> !Same(table[k], color)
      {
        if Same(entries[entry], color) {
          assert Same(table[entry], color);
          LookupFinds(table, color, entry);
          return entry;
        }
      }
      if size < budget {
        entries[size] := color;
        size := size + 1;
        assert Table() == table + [color];
        LookupFinds(Table(), color, size - 1);
        return size - 1;
      }
      index := Nearest(color);
    }

    // The search for the nearest entry of a full table.
    method Nearest(color: Rgba) returns (nearest: nat)
      requires Valid()
      ensures nearest == Lookup(Table(), color)
    {
      ghost var table := Table();
      nearest := 0;
      var best := Distance(entries[0], color);
      for entry := 1 to size
        invariant nearest < entry && nearest == NearestOf(table, color, entry)
        invariant best == Distance(table[nearest], color)
      {
        var distance := Distance(entries[entry], color);
        if distance < best {
          best, nearest := distance, entry;
        }
      }
    }
  }
}
