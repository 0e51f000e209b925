/**
 * The "Übersquadrat" of src/tiles.rs (`calculate_max_square_from_coords`):
 * the largest square of tiles all of which were visited, found by the
 * classic dynamic program over the bounding box of the tiles, scanned row
 * by row.
 */
module Square {
  import opened Wrappers
  import opened Numbers
  import opened Yard

  /** `MaxSquareResult`: the side of the square and its top-left tile. */
  datatype MaxSquare = MaxSquare(size: nat, topLeftX: nat, topLeftY: nat)

  /** Every tile of the `k`×`k` square whose top-left tile is `(tx, ty)` is in `visited`. */
  ghost predicate Covered(visited: set<Tile>, tx: nat, ty: nat, k: nat) {
    forall i: nat, j: nat :: tx <= i < tx + k && ty <= j < ty + k ==> (i, j) in visited
  }

  /** The `k`×`k` square whose bottom-right tile is `(ex, ey)` fits on the grid and is covered. */
  ghost predicate CoveredEnding(visited: set<Tile>, ex: nat, ey: nat, k: nat) {
    k <= ex + 1 && k <= ey + 1 && Covered(visited, ex + 1 - k, ey + 1 - k, k)
  }

  /** `iter().min().unwrap()`. */
  function Least(s: seq<nat>): (r: nat)
    requires |s| > 0
    ensures r in s && forall v :: v in s ==> r <= v
  {
    if |s| == 1 then s[0]
    else
      assert forall v :: v in s ==> v == s[0] || v in s[1..];
      Min(s[0], Least(s[1..]))
  }

  /** `iter().max().unwrap()`. */
  function Greatest(s: seq<nat>): (r: nat)
    requires |s| > 0
    ensures r in s && forall v :: v in s ==> v <= r
  {
    if |s| == 1 then s[0]
    else
      assert forall v :: v in s ==> v == s[0] || v in s[1..];
      if s[0] >= Greatest(s[1..]) then s[0] else Greatest(s[1..])
  }

  function Xs(coords: seq<Tile>): (r: seq<nat>)
    ensures |r| == |coords| && forall i :: 0 <= i < |coords| ==> r[i] == coords[i].0
  {
    seq(|coords|, i requires 0 <= i < |coords| => coords[i].0)
  }

  function Ys(coords: seq<Tile>): (r: seq<nat>)
    ensures |r| == |coords| && forall i :: 0 <= i < |coords| ==> r[i] == coords[i].1
  {
    seq(|coords|, i requires 0 <= i < |coords| => coords[i].1)
  }

  /**
   * The largest side of a covered square whose bottom-right tile is
   * `(minX + x, minY + y)`: the recurrence the table `dp[y][x]` follows.
   */
  ghost function Side(visited: set<Tile>, minX: nat, minY: nat, x: nat, y: nat): nat
    decreases x + y
  {
    if (minX + x, minY + y) !in visited then 0
    else if x == 0 || y == 0 then 1
    else
      Min(Min(Side(visited, minX, minY, x, y - 1), Side(visited, minX, minY, x - 1, y)),
          Side(visited, minX, minY, x - 1, y - 1)) + 1
  }

  /** The table value at relative `(x, y)` is at most `min(x, y) + 1`. */
  lemma {:induction false} SideBound(visited: set<Tile>, minX: nat, minY: nat, x: nat, y: nat)
    decreases x + y
    ensures Side(visited, minX, minY, x, y) <= Min(x, y) + 1
  {
    if (minX + x, minY + y) in visited && x > 0 && y > 0 {
      SideBound(visited, minX, minY, x - 1, y - 1);
    }
  }

  /** A covered square ending at a tile contains the smaller ones ending there. */
  lemma ShrinkEnding(visited: set<Tile>, ex: nat, ey: nat, a: nat, m: nat)
    requires CoveredEnding(visited, ex, ey, a) && m <= a
    ensures CoveredEnding(visited, ex, ey, m)
  {
    forall i: nat, j: nat | ex + 1 - m <= i < ex + 1 && ey + 1 - m <= j < ey + 1
      ensures (i, j) in visited
    {
      assert ex + 1 - a <= i && ey + 1 - a <= j;
    }
  }

  /** The square of side `Side` ending at the tile is covered. */
  lemma {:induction false} SideCovered(visited: set<Tile>, minX: nat, minY: nat, x: nat, y: nat)
    decreases x + y
    ensures CoveredEnding(visited, minX + x, minY + y, Side(visited, minX, minY, x, y))
  {
    var ex, ey := minX + x, minY + y;
    var k := Side(visited, minX, minY, x, y);
    SideBound(visited, minX, minY, x, y);
    if k > 1 {
      var up := Side(visited, minX, minY, x, y - 1);
      var left := Side(visited, minX, minY, x - 1, y);
      var diag := Side(visited, minX, minY, x - 1, y - 1);
      var m := k - 1;
      SideCovered(visited, minX, minY, x, y - 1);
      SideCovered(visited, minX, minY, x - 1, y);
      SideCovered(visited, minX, minY, x - 1, y - 1);
      ShrinkEnding(visited, ex, ey - 1, up, m);
      ShrinkEnding(visited, ex - 1, ey, left, m);
      ShrinkEnding(visited, ex - 1, ey - 1, diag, m);
      forall i: nat, j: nat | ex + 1 - k <= i < ex + 1 && ey + 1 - k <= j < ey + 1
        ensures (i, j) in visited
      {
        if i < ex && j < ey {
          assert ex - m <= i < ex && ey - m <= j < ey;
        } else if i < ex {
          assert ex - m <= i < ex && ey + 1 - m <= j < ey + 1;
        } else if j < ey {
          assert ex + 1 - m <= i < ex + 1 && ey - m <= j < ey;
        }
      }
    }
  }

  /** A covered square ending at a tile also ends covered squares one smaller at its three predecessors. */
  lemma ShrinkToPredecessors(visited: set<Tile>, ex: nat, ey: nat, k: nat)
    requires CoveredEnding(visited, ex, ey, k) && k > 0 && ex > 0 && ey > 0
    ensures CoveredEnding(visited, ex, ey - 1, k - 1)
    ensures CoveredEnding(visited, ex - 1, ey, k - 1)
    ensures CoveredEnding(visited, ex - 1, ey - 1, k - 1)
  {
  }

  /** No covered square ending at the tile is larger than `Side`. */
  lemma {:induction false} SideMaximal(visited: set<Tile>, minX: nat, minY: nat, x: nat, y: nat, k: nat)
    requires k <= x + 1 && k <= y + 1
    requires CoveredEnding(visited, minX + x, minY + y, k)
    decreases x + y
    ensures k <= Side(visited, minX, minY, x, y)
  {
    if k > 0 {
      assert (minX + x, minY + y) in visited;
      if x > 0 && y > 0 {
        ShrinkToPredecessors(visited, minX + x, minY + y, k);
        SideMaximal(visited, minX, minY, x, y - 1, k - 1);
        SideMaximal(visited, minX, minY, x - 1, y, k - 1);
        SideMaximal(visited, minX, minY, x - 1, y - 1, k - 1);
      }
    }
  }

  /** `(i, j)` comes before `(x, y)` in the row-major scan of a table `width` wide. */
  predicate Before(i: nat, j: nat, x: nat, y: nat, width: nat) {
    i < width && (j < y || (j == y && i < x))
  }

  /**
   * Line 502 as written: `abs_x - max_size + 1` on `u32` subtracts before
   * it adds, so a square that touches column 0 underflows, which panics in
   * a debug build.
   */
  function TopLeftAsWritten(abs: nat, size: nat): (r: Outcome<nat>)
    ensures r.Value? <==> size <= abs
    ensures r.Value? ==> r.value + size == abs + 1
  {
    if abs < size then Panicked else Value(abs - size + 1)
  }

  /** The one-tile input `[(0, 0)]` makes line 502 compute `0 - 1`. */
  lemma TopLeftUnderflows()
    ensures TopLeftAsWritten(0, 1) == Panicked
    ensures TopLeft(0, 1) == 0
  {
  }

  /**
   * Line 502 as written, carried through the scan: when some tile lies in
   * row 0, the box starts at row 0, the first visited cell of its first
   * row is reached with the running maximum still 0, its side 1 beats
   * that maximum, and the written `abs_y - max_size + 1` is then `0 - 1`.
   * The tile `(0, 0)` alone is such an input.
   */
  lemma RowZeroReachesUnderflow(coords: seq<Tile>, minX: nat, maxX: nat, minY: nat, maxY: nat) returns (x: nat)
    requires exists t :: t in coords && t.1 == 0
    requires minX == Least(Xs(coords)) && maxX == Greatest(Xs(coords))
    requires minY == Least(Ys(coords)) && maxY == Greatest(Ys(coords))
    ensures minX <= maxX && minY == 0 <= maxY
    ensures x <= maxX - minX
    ensures MaxState(Elems(coords), minX, minY, maxX - minX + 1, maxY - minY + 1, x, 0, 0, 0, 0, (minX, minY))
    ensures Side(Elems(coords), minX, minY, x, 0) == 1
    ensures TopLeftAsWritten(minY + 0, Side(Elems(coords), minX, minY, x, 0)) == Panicked
  {
    var t :| t in coords && t.1 == 0;
    BoxHolds(coords, minX, maxX, minY, maxY);
    assert t in Elems(coords);
    x := FirstInRow(Elems(coords), minX, minY, maxX - minX + 1, maxY - minY + 1, t.0 - minX);
  }

  /** The scan reaches the first visited cell of the box's first row with the maximum still 0. */
  lemma FirstInRow(visited: set<Tile>, minX: nat, minY: nat, width: nat, height: nat, tx: nat) returns (x: nat)
    requires tx < width && 0 < height
    requires (minX + tx, minY) in visited
    ensures x <= tx
    ensures MaxState(visited, minX, minY, width, height, x, 0, 0, 0, 0, (minX, minY))
    ensures Side(visited, minX, minY, x, 0) == 1
  {
    x := 0;
    while Side(visited, minX, minY, x, 0) == 0
      invariant x <= tx
      invariant forall i: nat :: i < x ==> Side(visited, minX, minY, i, 0) == 0
      decreases tx - x
    {
      x := x + 1;
    }
    forall j: nat, i: nat | Before(i, j, x, 0, width) && j < height
      ensures Side(visited, minX, minY, i, j) <= 0
    {
      assert j == 0 && i < x;
    }
  }

  /** On `[(0, 0)]` the scan's first cell sets the maximum to 1 and line 502 computes `0 - 1`. */
  lemma OneTileReachesUnderflow()
    ensures Least(Xs([(0, 0)])) == 0 && Least(Ys([(0, 0)])) == 0
    ensures MaxState(Elems([(0, 0)]), 0, 0, 1, 1, 0, 0, 0, 0, 0, (0, 0))
    ensures Side(Elems([(0, 0)]), 0, 0, 0, 0) == 1
    ensures TopLeftAsWritten(0, Side(Elems([(0, 0)]), 0, 0, 0, 0)) == Panicked
  {
    assert (0, 0) in [(0, 0)];
    var x := RowZeroReachesUnderflow([(0, 0)], 0, 0, 0, 0);
  }

  /** The top-left coordinate of a square of side `size` ending at `abs`, added before subtracting. */
  function TopLeft(abs: nat, size: nat): (r: nat)
    requires size <= abs + 1
    ensures r + size == abs + 1
    ensures size > 0 ==> r <= abs
  {
    abs + 1 - size
  }

  /** The table after the cells before `(x, y)`: those hold `Side`, the rest still 0. */
  ghost predicate TableState(visited: set<Tile>, minX: nat, minY: nat, width: nat, height: nat, x: nat, y: nat,
                             dp: array2<nat>)
    reads dp
  {
    && dp.Length0 == height && dp.Length1 == width
    && (forall j: nat, i: nat :: Before(i, j, x, y, width) && j < height ==> dp[j, i] == Side(visited, minX, minY, i, j))
    && (forall j: nat, i: nat :: j < height && i < width && !Before(i, j, x, y, width) ==> dp[j, i] == 0)
  }

  /** The running maximum after the cells before `(x, y)`, and where it was first reached. */
  ghost predicate MaxState(visited: set<Tile>, minX: nat, minY: nat, width: nat, height: nat, x: nat, y: nat,
                           maxSize: nat, px: nat, py: nat, maxPos: (nat, nat))
  {
    && (forall j: nat, i: nat :: Before(i, j, x, y, width) && j < height ==> Side(visited, minX, minY, i, j) <= maxSize)
    && (maxSize > 0 ==> Best(visited, minX, minY, width, height, maxSize, px, py) && Before(px, py, x, y, width))
    && (maxSize > 0 ==> maxPos == (minX + px + 1 - maxSize, minY + py + 1 - maxSize))
  }

  /** A cell whose square beats the running maximum becomes the best; otherwise nothing changes. */
  lemma MaxStep(visited: set<Tile>, minX: nat, minY: nat, width: nat, height: nat, x: nat, y: nat,
                maxSize: nat, px: nat, py: nat, maxPos: (nat, nat))
    requires x < width && y < height
    requires MaxState(visited, minX, minY, width, height, x, y, maxSize, px, py, maxPos)
    ensures var k := Side(visited, minX, minY, x, y);
      k <= x + 1 && k <= y + 1 &&
      if k > maxSize then MaxState(visited, minX, minY, width, height, x + 1, y, k, x, y, (minX + x + 1 - k, minY + y + 1 - k))
      else MaxState(visited, minX, minY, width, height, x + 1, y, maxSize, px, py, maxPos)
  {
    SideBound(visited, minX, minY, x, y);
  }

  /**
   * One cell of the scan: `dp[y][x]` from its three predecessors when the
   * tile is visited, and the running maximum with its top-left tile.
   */
  method FillCell(dp: array2<nat>, visited: set<Tile>, minX: nat, minY: nat, width: nat, height: nat,
                  x: nat, y: nat, maxSize: nat, ghost px: nat, ghost py: nat, maxPos: (nat, nat))
    returns (maxSize': nat, ghost px': nat, ghost py': nat, maxPos': (nat, nat))
    requires x < width && y < height
    requires TableState(visited, minX, minY, width, height, x, y, dp)
    requires MaxState(visited, minX, minY, width, height, x, y, maxSize, px, py, maxPos)
    modifies dp
    ensures TableState(visited, minX, minY, width, height, x + 1, y, dp)
    ensures MaxState(visited, minX, minY, width, height, x + 1, y, maxSize', px', py', maxPos')
  {
    MaxStep(visited, minX, minY, width, height, x, y, maxSize, px, py, maxPos);
    maxSize', px', py', maxPos' := maxSize, px, py, maxPos;
    var absX, absY := minX + x, minY + y;
    if (absX, absY) in visited {
      if x == 0 || y == 0 {
        dp[y, x] := 1;
      } else {
        assert Before(x, y - 1, x, y, width) && Before(x - 1, y, x, y, width) && Before(x - 1, y - 1, x, y, width);
        dp[y, x] := Min(Min(dp[y - 1, x], dp[y, x - 1]), dp[y - 1, x - 1]) + 1;
      }
      if dp[y, x] > maxSize {
        maxSize' := dp[y, x];
        maxPos' := (TopLeft(absX, maxSize'), TopLeft(absY, maxSize'));
        px', py' := x, y;
      }
    } else {
      assert !Before(x, y, x, y, width);
    }
    assert dp[y, x] == Side(visited, minX, minY, x, y);
    forall j: nat, i: nat | Before(i, j, x + 1, y, width) && j < height
      ensures dp[j, i] == Side(visited, minX, minY, i, j)
    {
      if (i, j) != (x, y) {
        assert Before(i, j, x, y, width);
      }
    }
  }

  /** `(px, py)` is the first cell of the table whose square has side `maxSize`. */
  ghost predicate Best(visited: set<Tile>, minX: nat, minY: nat, width: nat, height: nat, maxSize: nat, px: nat, py: nat) {
    && px < width && py < height
    && Side(visited, minX, minY, px, py) == maxSize
    && maxSize <= px + 1 && maxSize <= py + 1
    && (forall j: nat, i: nat :: Before(i, j, px, py, width) ==> Side(visited, minX, minY, i, j) < maxSize)
  }

  /** Every tile lies in the bounding box the scan covers. */
  ghost predicate InBox(visited: set<Tile>, minX: nat, minY: nat, width: nat, height: nat) {
    forall t :: t in visited ==> minX <= t.0 < minX + width && minY <= t.1 < minY + height
  }

  lemma BoxHolds(coords: seq<Tile>, minX: nat, maxX: nat, minY: nat, maxY: nat)
    requires |coords| > 0
    requires minX == Least(Xs(coords)) && maxX == Greatest(Xs(coords))
    requires minY == Least(Ys(coords)) && maxY == Greatest(Ys(coords))
    ensures minX <= maxX && minY <= maxY
    ensures InBox(Elems(coords), minX, minY, maxX - minX + 1, maxY - minY + 1)
  {
    forall t | t in Elems(coords)
      ensures minX <= t.0 <= maxX && minY <= t.1 <= maxY
    {
      assert t in coords;
      var n :| 0 <= n < |coords| && coords[n] == t;
      assert Xs(coords)[n] == t.0 && Ys(coords)[n] == t.1;
      assert t.0 in Xs(coords) && t.1 in Ys(coords);
    }
  }

  /**
   * Once the whole box is scanned, the best cell names a covered square no
   * other covered square outgrows, and no covered square of that size
   * comes earlier in the scan.
   */
  lemma ScanConclusion(visited: set<Tile>, minX: nat, minY: nat, width: nat, height: nat, maxSize: nat, px: nat, py: nat)
    requires InBox(visited, minX, minY, width, height)
    requires forall j: nat, i: nat :: Before(i, j, 0, height, width) ==> Side(visited, minX, minY, i, j) <= maxSize
    requires maxSize > 0 ==> Best(visited, minX, minY, width, height, maxSize, px, py)
    ensures visited != {} ==> maxSize > 0
    ensures maxSize > 0 ==> Covered(visited, minX + px + 1 - maxSize, minY + py + 1 - maxSize, maxSize)
    ensures forall tx: nat, ty: nat, k: nat :: Covered(visited, tx, ty, k) ==> k <= maxSize
    ensures maxSize > 0 ==> forall tx: nat, ty: nat :: Covered(visited, tx, ty, maxSize) ==>
      ty > minY + py + 1 - maxSize || (ty == minY + py + 1 - maxSize && tx >= minX + px + 1 - maxSize)
  {
    if visited != {} {
      var t :| t in visited;
      assert Before(t.0 - minX, t.1 - minY, 0, height, width);
    }
    if maxSize > 0 {
      SideCovered(visited, minX, minY, px, py);
    }
    forall tx: nat, ty: nat, k: nat | Covered(visited, tx, ty, k) && k > 0
      ensures k <= maxSize
      ensures k == maxSize ==> ty > minY + py + 1 - maxSize || (ty == minY + py + 1 - maxSize && tx >= minX + px + 1 - maxSize)
    {
      assert (tx, ty) in visited && (tx + k - 1, ty + k - 1) in visited;
      var ex: nat, ey: nat := tx + k - 1 - minX, ty + k - 1 - minY;
      SideMaximal(visited, minX, minY, ex, ey, k);
      assert Before(ex, ey, 0, height, width);
      if k == maxSize {
        assert !Before(ex, ey, px, py, width);
      }
    }
  }

  /** Past the last column, the scan stands at the start of the next row. */
  lemma RowDone(visited: set<Tile>, minX: nat, minY: nat, width: nat, height: nat, y: nat,
                dp: array2<nat>, maxSize: nat, px: nat, py: nat, maxPos: (nat, nat))
    requires TableState(visited, minX, minY, width, height, width, y, dp)
    requires MaxState(visited, minX, minY, width, height, width, y, maxSize, px, py, maxPos)
    ensures TableState(visited, minX, minY, width, height, 0, y + 1, dp)
    ensures MaxState(visited, minX, minY, width, height, 0, y + 1, maxSize, px, py, maxPos)
  {
    assert forall j: nat, i: nat :: Before(i, j, 0, y + 1, width) <==> Before(i, j, width, y, width);
  }

  /** One row of the scan: every cell of row `y`, left to right. */
  method ScanRow(dp: array2<nat>, visited: set<Tile>, minX: nat, minY: nat, width: nat, height: nat, y: nat,
                 maxSize: nat, ghost px: nat, ghost py: nat, maxPos: (nat, nat))
    returns (maxSize': nat, ghost px': nat, ghost py': nat, maxPos': (nat, nat))
    requires y < height
    requires TableState(visited, minX, minY, width, height, 0, y, dp)
    requires MaxState(visited, minX, minY, width, height, 0, y, maxSize, px, py, maxPos)
    modifies dp
    ensures TableState(visited, minX, minY, width, height, 0, y + 1, dp)
    ensures MaxState(visited, minX, minY, width, height, 0, y + 1, maxSize', px', py', maxPos')
  {
    maxSize', px', py', maxPos' := maxSize, px, py, maxPos;
    var x := 0;
    while x < width
      invariant 0 <= x <= width
      invariant TableState(visited, minX, minY, width, height, x, y, dp)
      invariant MaxState(visited, minX, minY, width, height, x, y, maxSize', px', py', maxPos')
    {
      maxSize', px', py', maxPos' := FillCell(dp, visited, minX, minY, width, height, x, y, maxSize', px', py', maxPos');
      x := x + 1;
    }
    RowDone(visited, minX, minY, width, height, y, dp, maxSize', px', py', maxPos');
  }

  /**
   * The whole scan over a fresh zero table `height` rows by `width`
   * columns: the running maximum once every cell has been seen.
   */
  method ScanTable(visited: set<Tile>, minX: nat, minY: nat, width: nat, height: nat)
    returns (maxSize: nat, ghost px: nat, ghost py: nat, maxPos: (nat, nat))
    ensures MaxState(visited, minX, minY, width, height, 0, height, maxSize, px, py, maxPos)
  {
    var dp := new nat[height, width]((j, i) => 0);
    maxSize, maxPos := 0, (minX, minY);
    px, py := 0, 0;
    var y := 0;
    while y < height
      invariant 0 <= y <= height
      invariant TableState(visited, minX, minY, width, height, 0, y, dp)
      invariant MaxState(visited, minX, minY, width, height, 0, y, maxSize, px, py, maxPos)
    {
      maxSize, px, py, maxPos := ScanRow(dp, visited, minX, minY, width, height, y, maxSize, px, py, maxPos);
      y := y + 1;
    }
  }

  /**
   * `calculate_max_square_from_coords`: the side and the top-left tile of a
   * largest fully visited square; among equally large ones, the one whose
   * bottom-right tile comes first row by row.
   */
  method MaxSquareOf(coords: seq<Tile>) returns (r: MaxSquare)
    ensures coords == [] ==> r == MaxSquare(0, 0, 0)
    ensures coords != [] ==> r.size > 0
    ensures Covered(Elems(coords), r.topLeftX, r.topLeftY, r.size)
    ensures forall tx: nat, ty: nat, k: nat :: Covered(Elems(coords), tx, ty, k) ==> k <= r.size
    ensures r.size > 0 ==> forall tx: nat, ty: nat :: Covered(Elems(coords), tx, ty, r.size) ==>
      ty > r.topLeftY || (ty == r.topLeftY && tx >= r.topLeftX)
  {
    if coords == [] {
      forall tx: nat, ty: nat, k: nat | Covered(Elems(coords), tx, ty, k)
        ensures k <= 0
      {
        assert k > 0 ==> (tx, ty) in Elems(coords);
      }
      return MaxSquare(0, 0, 0);
    }
    var visited := Elems(coords);
    var minX := Least(Xs(coords));
    var maxX := Greatest(Xs(coords));
    var minY := Least(Ys(coords));
    var maxY := Greatest(Ys(coords));
    BoxHolds(coords, minX, maxX, minY, maxY);
    var width := maxX - minX + 1;
    var height := maxY - minY + 1;
    var maxSize, px, py, maxPos := ScanTable(visited, minX, minY, width, height);
    assert coords[0] in visited;
    ScanConclusion(visited, minX, minY, width, height, maxSize, px, py);
    r := MaxSquare(maxSize, maxPos.0, maxPos.1);
  }
}
