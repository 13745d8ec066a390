/**
 The filling of polygons scanline by scanline, over exact real coordinates: a raster cell is
 written as the even-odd rule demands.
 */
module Polygon {
  datatype Point = Point(x: real, y: real)

  // ----- Crossings --------------------------------------------------------------------

  // The k-th edge of a closed loop of points leads from the k-th to the next one.
  function Next(loop: seq<Point>, k: nat): (p: Point)
    requires k < |loop|
  {
    loop[if k + 1 == |loop| then 0 else k + 1]
  }

  predicate Above(p: Point, scanline: real) {
    p.y <= scanline
  }

  // Edges are half-open, so that a vertex on the scanline is counted once.
  predicate Crosses(a: Point, b: Point, scanline: real) {
    Above(a, scanline) != Above(b, scanline)
  }

  function Crossing(a: Point, b: Point, scanline: real): (x: real)
    requires Crosses(a, b, scanline)
  {
    a.x + (scanline - a.y) / (b.y - a.y) * (b.x - a.x)
  }

  // A crossing is where the edge meets the scanline: a point of the edge, at its height.
  lemma CrossingIsOnEdge(a: Point, b: Point, scanline: real)
    returns (t: real)
    requires Crosses(a, b, scanline)
    ensures 0.0 <= t <= 1.0
    ensures Crossing(a, b, scanline) == a.x + t * (b.x - a.x) && scanline == a.y + t * (b.y - a.y)
  {
    var d := b.y - a.y;
    t := (scanline - a.y) / d;
    assert t * d == scanline - a.y;
    assert (t - 1.0) * d == scanline - b.y;
    SignOfProduct(t, d);
    SignOfProduct(t - 1.0, d);
  }

  lemma SignOfProduct(t: real, d: real)
    ensures d > 0.0 ==> (t < 0.0 <==> t * d < 0.0) && (t > 0.0 <==> t * d > 0.0)
    ensures d < 0.0 ==> (t < 0.0 <==> t * d > 0.0) && (t > 0.0 <==> t * d < 0.0)
  {
  }

  // The crossings of the first n edges with a scanline, in the order of the edges.
  function Crossings(loop: seq<Point>, scanline: real, n: nat): (xs: seq<real>)
    requires n <= |loop|
  {
    if n == 0 then []
    else
      var a, b := loop[n - 1], Next(loop, n - 1);
      Crossings(loop, scanline, n - 1) + (if Crosses(a, b, scanline) then [Crossing(a, b, scanline)] else [])
  }

  // Whoever walks along the loop changes sides as often as there are crossings.
  lemma {:induction false} SidesAlternate(loop: seq<Point>, scanline: real, n: nat)
    requires loop != [] && n <= |loop|
    ensures |Crossings(loop, scanline, n)| % 2 == 0 <==>
            (Above(loop[0], scanline) == Above(loop[if n == |loop| then 0 else n], scanline))
  {
    if n > 0 {
      SidesAlternate(loop, scanline, n - 1);
    }
  }

  // So a closed loop crosses every scanline an even number of times.
  lemma CrossingsAreEven(loop: seq<Point>, scanline: real)
    ensures |Crossings(loop, scanline, |loop|)| % 2 == 0
  {
    if loop != [] {
      SidesAlternate(loop, scanline, |loop|);
    }
  }

  lemma {:induction false} NoCrossingsOnOneSide(loop: seq<Point>, scanline: real, n: nat)
    requires n <= |loop|
    requires forall i, j :: 0 <= i < |loop| && 0 <= j < |loop| ==> Above(loop[i], scanline) == Above(loop[j], scanline)
    ensures Crossings(loop, scanline, n) == []
  {
    if n > 0 {
      NoCrossingsOnOneSide(loop, scanline, n - 1);
    }
  }

  // ----- Sorting ----------------------------------------------------------------------

  predicate Sorted(xs: seq<real>) {
    forall i, j :: 0 <= i < j < |xs| ==> xs[i] <= xs[j]
  }

  // How many of some numbers are less than a number, and how many equal it.
  function Less(xs: seq<real>, x: real): (count: nat) {
    if xs == [] then 0 else Less(xs[..|xs| - 1], x) + (if xs[|xs| - 1] < x then 1 else 0)
  }

  lemma {:induction false} LessOfSorted(xs: seq<real>, x: real, k: nat)
    requires Sorted(xs) && k <= |xs|
    requires forall i :: 0 <= i < k ==> xs[i] < x
    requires forall i :: k <= i < |xs| ==> xs[i] >= x
    ensures Less(xs, x) == k
  {
    if xs != [] {
      LessOfSorted(xs[..|xs| - 1], x, if k == |xs| then k - 1 else k);
    }
  }

  lemma {:induction false} LessConcat(a: seq<real>, b: seq<real>, x: real)
    ensures Less(a + b, x) == Less(a, x) + Less(b, x)
  {
    if b == [] {
      assert a + b == a;
    } else {
      assert (a + b)[..|a + b| - 1] == a + b[..|b| - 1];
      LessConcat(a, b[..|b| - 1], x);
    }
  }

  // The same numbers in another order.
  ghost predicate Rearranged(xs: seq<real>, ys: seq<real>) {
    |xs| == |ys| && (forall x :: x in xs <==> x in ys) && forall x :: Less(xs, x) == Less(ys, x)
  }

  // Sorting by insertion.
  method Sort(xs: seq<real>) returns (sorted: seq<real>)
    ensures Sorted(sorted) && Rearranged(xs, sorted)
  {
    sorted := [];
    for k := 0 to |xs|
      invariant Sorted(sorted) && Rearranged(xs[..k], sorted)
    {
      var at := 0;
      while at < |sorted| && sorted[at] < xs[k]
        invariant at <= |sorted| && forall i :: 0 <= i < at ==> sorted[i] < xs[k]
      {
        at := at + 1;
      }
      InsertRearranges(xs, k, sorted, at);
      sorted := sorted[..at] + [xs[k]] + sorted[at..];
    }
    assert xs[..|xs|] == xs;
  }

  lemma InsertRearranges(xs: seq<real>, k: nat, sorted: seq<real>, at: nat)
    requires k < |xs| && at <= |sorted| && Rearranged(xs[..k], sorted)
    ensures Rearranged(xs[..k + 1], sorted[..at] + [xs[k]] + sorted[at..])
  {
    var more := sorted[..at] + [xs[k]] + sorted[at..];
    assert xs[..k + 1] == xs[..k] + [xs[k]];
    assert sorted == sorted[..at] + sorted[at..];
    forall x ensures Less(xs[..k + 1], x) == Less(more, x) {
      LessConcat(xs[..k], [xs[k]], x);
      LessConcat(sorted[..at], sorted[at..], x);
      LessConcat(sorted[..at] + [xs[k]], sorted[at..], x);
      LessConcat(sorted[..at], [xs[k]], x);
    }
    forall x ensures x in xs[..k + 1] <==> x in more {
      assert x in xs[..k + 1] <==> x in xs[..k] || x == xs[k];
      assert x in more <==> x in sorted[..at] || x == xs[k] || x in sorted[at..];
      assert x in sorted <==> x in sorted[..at] || x in sorted[at..];
    }
  }

  // ----- The even-odd rule ------------------------------------------------------------

  function Centre(cell: int): (c: real) {
    cell as real + 0.5
  }

  // A cell of a row is inside when its centre has an odd number of crossings to its left,
  // or lies on a crossing itself.
  ghost predicate Inside(loop: seq<Point>, row: int, column: int) {
    var xs := Crossings(loop, Centre(row), |loop|);
    Centre(column) in xs || Less(xs, Centre(column)) % 2 == 1
  }

  // A rectangle holds the centres between its sides: its left, right and lower edges belong
  // to it, and its upper edge does not, so that rectangles on top of each other share no row.
  lemma RectangleInside(left: real, right: real, low: real, high: real, row: int, column: int)
    requires left <= right && low <= high
    ensures var loop := [Point(left, low), Point(right, low), Point(right, high), Point(left, high)];
            Inside(loop, row, column) <==>
            low <= row as real + 0.5 < high && left <= column as real + 0.5 <= right
  {
    var loop := [Point(left, low), Point(right, low), Point(right, high), Point(left, high)];
    var s, c := Centre(row), Centre(column);
    RectangleCrossings(left, right, low, high, s);
    assert |loop| == 4;
    if low <= s < high {
      LessOfTwo(right, left, c);
    }
  }

  lemma LessOfTwo(x: real, y: real, c: real)
    ensures Less([x, y], c) == (if x < c then 1 else 0) + (if y < c then 1 else 0)
  {
    assert [x, y][..1] == [x] && [x][..0] == [];
    assert Less([x], c) == if x < c then 1 else 0;
  }

  lemma RectangleCrossings(left: real, right: real, low: real, high: real, s: real)
    requires left <= right && low <= high
    ensures var loop := [Point(left, low), Point(right, low), Point(right, high), Point(left, high)];
            Crossings(loop, s, 4) == if low <= s < high then [right, left] else []
  {
    var loop := [Point(left, low), Point(right, low), Point(right, high), Point(left, high)];
    assert Crossings(loop, s, 0) == [] && Crossings(loop, s, 1) == [];
    if low <= s < high {
      assert Crossing(loop[1], loop[2], s) == right && Crossing(loop[3], loop[0], s) == left;
      assert Crossings(loop, s, 2) == [right] && Crossings(loop, s, 3) == [right];
    } else {
      assert Crossings(loop, s, 2) == [] && Crossings(loop, s, 3) == [];
    }
  }

  // Between the two crossings of a pair, both of them included.
  predicate InPair(sorted: seq<real>, pair: nat, c: real) {
    2 * pair + 1 < |sorted| && sorted[2 * pair] <= c <= sorted[2 * pair + 1]
  }

  // Among sorted crossings, the pairs hold just what the rule demands.
  lemma PairsAreInside(sorted: seq<real>, c: real)
    requires Sorted(sorted) && |sorted| % 2 == 0
    ensures (exists pair: nat :: InPair(sorted, pair, c)) <==> c in sorted || Less(sorted, c) % 2 == 1
  {
    var k := FirstNotLess(sorted, c);
    LessOfSorted(sorted, c, k);
    if k % 2 == 1 {
      assert InPair(sorted, k / 2, c);
    } else if c in sorted {
      var i :| 0 <= i < |sorted| && sorted[i] == c;
      assert i >= k && sorted[k] == c;
      assert InPair(sorted, k / 2, c);
    }
    forall pair: nat | InPair(sorted, pair, c)
      ensures c in sorted || k % 2 == 1
    {
      if sorted[2 * pair] < c < sorted[2 * pair + 1] {
        assert k == 2 * pair + 1;
      }
    }
  }

  lemma {:induction false} FirstNotLess(sorted: seq<real>, c: real) returns (k: nat)
    requires Sorted(sorted)
    ensures k <= |sorted| && (forall i :: 0 <= i < k ==> sorted[i] < c)
    ensures forall i :: k <= i < |sorted| ==> sorted[i] >= c
  {
    if sorted == [] || sorted[|sorted| - 1] < c {
      k := |sorted|;
    } else {
      k := FirstNotLess(sorted[..|sorted| - 1], c);
    }
  }

  function Ceil(x: real): (n: int)
    ensures n as real >= x > n as real - 1.0
  {
    -((-x).Floor)
  }

  function Max(a: int, b: int): (m: int) {
    if a >= b then a else b
  }

  function Min(a: int, b: int): (m: int) {
    if a <= b then a else b
  }

  // The cells from one crossing to another are those whose centres lie between them.
  lemma SpanIsBetween(from: real, to: real, width: nat, column: int)
    requires 0 <= column < width
    ensures Max(0, Ceil(from - 0.5)) <= column <= Min(width - 1, (to - 0.5).Floor) <==>
            from <= Centre(column) <= to
  {
  }

  // ----- Filling ----------------------------------------------------------------------

  method GatherCrossings(loop: seq<Point>, scanline: real) returns (crossings: seq<real>)
    ensures crossings == Crossings(loop, scanline, |loop|)
  {
    crossings := [];
    for k := 0 to |loop|
      invariant crossings == Crossings(loop, scanline, k)
    {
      var a, b := loop[k], Next(loop, k);
      if Above(a, scanline) != Above(b, scanline) {
        crossings := crossings + [Crossing(a, b, scanline)];
      }
    }
  }

  // Writes the cells of one row between a pair of crossings.
  method FillSpan(raster: array2<nat>, row: nat, from: real, to: real, index: nat)
    requires row < raster.Length0
    modifies raster
    ensures forall v, u :: 0 <= v < raster.Length0 && 0 <= u < raster.Length1 ==>
              raster[v, u] == if v == row && from <= Centre(u) <= to then index else old(raster[v, u])
  {
    var first := Max(0, Ceil(from - 0.5));
    var last := Min(raster.Length1 - 1, (to - 0.5).Floor);
    forall u | 0 <= u < raster.Length1
      ensures first <= u <= last <==> from <= Centre(u) <= to
    {
      SpanIsBetween(from, to, raster.Length1, u);
    }
    var column := first;
    while column <= last
      invariant first <= column <= Max(first, last + 1)
      invariant forall v, u :: 0 <= v < raster.Length0 && 0 <= u < raster.Length1 ==>
                  raster[v, u] == if v == row && first <= u < column then index else old(raster[v, u])
    {
      raster[row, column] := index;
      column := column + 1;
    }
  }

  // In one of the first n pairs.
  ghost predicate InPairs(sorted: seq<real>, n: nat, c: real) {
    exists pair: nat :: pair < n && InPair(sorted, pair, c)
  }

  lemma InPairsMore(sorted: seq<real>, n: nat, c: real)
    requires 2 * n + 1 < |sorted|
    ensures InPairs(sorted, n + 1, c) <==> InPairs(sorted, n, c) || sorted[2 * n] <= c <= sorted[2 * n + 1]
  {
    if sorted[2 * n] <= c <= sorted[2 * n + 1] {
      assert InPair(sorted, n, c);
    }
  }

  method FillPairs(raster: array2<nat>, row: nat, sorted: seq<real>, index: nat)
    requires row < raster.Length0 && |sorted| % 2 == 0
    modifies raster
    ensures forall v, u :: 0 <= v < raster.Length0 && 0 <= u < raster.Length1 ==>
              raster[v, u] == if v == row && InPairs(sorted, |sorted| / 2, Centre(u)) then index else old(raster[v, u])
  {
    var pair := 0;
    while 2 * pair + 1 < |sorted|
      invariant 2 * pair <= |sorted|
      invariant forall v, u :: 0 <= v < raster.Length0 && 0 <= u < raster.Length1 ==>
                  raster[v, u] == if v == row && InPairs(sorted, pair, Centre(u)) then index else old(raster[v, u])
    {
      FillSpan(raster, row, sorted[2 * pair], sorted[2 * pair + 1], index);
      forall u | 0 <= u < raster.Length1
        ensures InPairs(sorted, pair + 1, Centre(u)) <==>
                InPairs(sorted, pair, Centre(u)) || sorted[2 * pair] <= Centre(u) <= sorted[2 * pair + 1]
      {
        InPairsMore(sorted, pair, Centre(u));
      }
      pair := pair + 1;
    }
  }

  // One row: exactly the cells inside are written.
  method FillRow(raster: array2<nat>, row: nat, loop: seq<Point>, index: nat)
    requires row < raster.Length0
    modifies raster
    ensures forall v, u :: 0 <= v < raster.Length0 && 0 <= u < raster.Length1 ==>
              raster[v, u] == if v == row && Inside(loop, v, u) then index else old(raster[v, u])
  {
    var crossings := GatherCrossings(loop, Centre(row));
    CrossingsAreEven(loop, Centre(row));
    var sorted := Sort(crossings);
    FillPairs(raster, row, sorted, index);
    forall u | 0 <= u < raster.Length1
      ensures InPairs(sorted, |sorted| / 2, Centre(u)) <==> Inside(loop, row, u)
    {
      PairsAreInside(sorted, Centre(u));
      if pair: nat :| InPair(sorted, pair, Centre(u)) {
        assert pair < |sorted| / 2;
      }
    }
  }

  method Extent(loop: seq<Point>) returns (top: real, bottom: real)
    requires loop != []
    ensures forall k :: 0 <= k < |loop| ==> top <= loop[k].y <= bottom
    ensures exists k :: 0 <= k < |loop| && loop[k].y == top
  {
    top, bottom := loop[0].y, loop[0].y;
    for k := 1 to |loop|
      invariant forall j :: 0 <= j < k ==> top <= loop[j].y <= bottom
      invariant exists j :: 0 <= j < k && loop[j].y == top
    {
      if loop[k].y < top {
        top := loop[k].y;
      }
      if loop[k].y > bottom {
        bottom := loop[k].y;
      }
    }
  }

  // Rows outside the extent of the loop have nothing inside.
  lemma OutsideExtent(loop: seq<Point>, top: real, bottom: real, row: int, column: int)
    requires forall k :: 0 <= k < |loop| ==> top <= loop[k].y <= bottom
    requires row < Ceil(top - 0.5) || row > (bottom - 0.5).Floor
    ensures !Inside(loop, row, column)
  {
    if row < Ceil(top - 0.5) {
      assert Centre(row) < top;
    } else {
      assert Centre(row) > bottom;
    }
    NoCrossingsOnOneSide(loop, Centre(row), |loop|);
  }

  // fill_polygon: of the whole raster, exactly the cells inside the loop by the even-odd
  // rule are written.
  method FillPolygon(raster: array2<nat>, loop: seq<Point>, index: nat)
    requires loop != []
    modifies raster
    ensures forall v, u :: 0 <= v < raster.Length0 && 0 <= u < raster.Length1 ==>
              raster[v, u] == if Inside(loop, v, u) then index else old(raster[v, u])
  {
    var top, bottom := Extent(loop);
    var firstRow := Max(0, Ceil(top - 0.5));
    var lastRow := Min(raster.Length0 - 1, (bottom - 0.5).Floor);
    var row := firstRow;
    while row <= lastRow
      invariant firstRow <= row <= Max(firstRow, lastRow + 1)
      invariant forall v, u :: 0 <= v < raster.Length0 && 0 <= u < raster.Length1 ==>
                  raster[v, u] == if firstRow <= v < row && Inside(loop, v, u) then index else old(raster[v, u])
    {
      FillRow(raster, row, loop, index);
      row := row + 1;
    }
    forall v, u | 0 <= v < raster.Length0 && 0 <= u < raster.Length1 && !(firstRow <= v < row)
      ensures !Inside(loop, v, u)
    {
      OutsideExtent(loop, top, bottom, v, u);
    }
  }

  // ----- Stamping ---------------------------------------------------------------------

  // stamp: writes the square of a width around a point, shifted into the raster at its left
  // and upper edge and cut off at the others.
  method Stamp(raster: array2<nat>, x: int, y: int, width: nat, index: nat)
    modifies raster
    ensures forall v, u :: 0 <= v < raster.Length0 && 0 <= u < raster.Length1 ==>
              raster[v, u] == if StampCovers(v, y, width) && StampCovers(u, x, width) then index else old(raster[v, u])
  {
    var left, top := Max(0, x - width / 2), Max(0, y - width / 2);
    var right, bottom := Min(raster.Length1 - 1, left + width - 1), Min(raster.Length0 - 1, top + width - 1);
    var row := top;
    while row <= bottom
      invariant top <= row <= Max(top, bottom + 1)
      invariant forall v, u :: 0 <= v < raster.Length0 && 0 <= u < raster.Length1 ==>
                  raster[v, u] == if top <= v < row && left <= u <= right then index else old(raster[v, u])
    {
      var column := left;
      while column <= right
        invariant left <= column <= Max(left, right + 1)
        invariant forall v, u :: 0 <= v < raster.Length0 && 0 <= u < raster.Length1 ==>
                    raster[v, u] ==
                    if (top <= v < row && left <= u <= right) || (v == row && left <= u < column) then index
                    else old(raster[v, u])
      {
        raster[row, column] := index;
        column := column + 1;
      }
      row := row + 1;
    }
  }

  // The cells of one axis that a stamp covers.
  predicate StampCovers(cell: int, at: int, width: nat) {
    var first := Max(0, at - width / 2);
    first <= cell < first + width
  }
}
