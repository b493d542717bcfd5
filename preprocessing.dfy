/** The offline phase (class `JPSPlus` of the preprocessing program): read the
    wall grid, mark primary jump points, fill the signed distance table in
    place by row-by-row sweeps, and print one line per free cell. */
module Preprocessing {
  import opened Directions
  import opened Grids
  import opened JumpTable

  /** The grid `read` builds: a cell is a wall exactly when its character is '#'. */
  function ParseWalls(width: nat, height: nat, rows: seq<string>): (g: Grid)
    requires |rows| == height
    requires forall i :: 0 <= i < height ==> |rows[i]| == width
    ensures WellFormed(g) && g.width == width && g.height == height
    ensures forall r, c :: InBounds(width, height, r, c) ==> (g.walls[r][c] <==> rows[r][c] == '#')
  {
    Grid(width, height,
      seq(height, i requires 0 <= i < height =>
        seq(width, j requires 0 <= j < width => rows[i][j] == '#')))
  }

  /** Position of coordinate `x` in a sweep over 0..n-1, increasing when `up`. */
  function SweepRank(n: int, x: int, up: bool): int
  {
    if up then x else n - 1 - x
  }

  /** The in-bounds cell (r, c) is visited before the cell at sweep position
      (i, j): rows first, then columns. */
  predicate SweptBefore(width: int, height: int, rowsUp: bool, colsUp: bool, r: int, c: int, i: int, j: int)
  {
    && InBounds(width, height, r, c)
    && (|| SweepRank(height, r, rowsUp) < i
        || (SweepRank(height, r, rowsUp) == i && SweepRank(width, c, colsUp) < j))
  }

  /** A sweep order that runs against `d`: rows against its row delta and, for
      a horizontal `d`, columns against its column delta. */
  predicate SweepOrderSound(d: Dir, rowsUp: bool, colsUp: bool)
  {
    && (DRow(d) < 0 ==> rowsUp)
    && (DRow(d) > 0 ==> !rowsUp)
    && (DRow(d) == 0 && DCol(d) < 0 ==> colsUp)
    && (DRow(d) == 0 && DCol(d) > 0 ==> !colsUp)
  }

  /** In a sound sweep order the neighbour along `d` of the cell at position
      (i, j), when on the grid, has already been visited. */
  lemma NeighbourSweptFirst(width: int, height: int, d: Dir, rowsUp: bool, colsUp: bool, r: int, c: int)
    requires SweepOrderSound(d, rowsUp, colsUp)
    requires InBounds(width, height, r + DRow(d), c + DCol(d))
    ensures SweptBefore(width, height, rowsUp, colsUp, r + DRow(d), c + DCol(d),
                        SweepRank(height, r, rowsUp), SweepRank(width, c, colsUp))
  {
  }

  /** Row-major order of two printed lines. */
  predicate RowMajorBefore(a: DistanceLine, b: DistanceLine)
  {
    a.row < b.row || (a.row == b.row && a.col < b.col)
  }

  class JPSPlus {
    var mapWidth: int
    var mapHeight: int
    var wall: array2<bool>
    /** Primary jump point flags, one slot per cardinal enumerator value. */
    var jumpPoint: array3<bool>
    var distance: array3<int>
    /** The wall grid as a value, the subject of the specification functions. */
    ghost var grid: Grid

    ghost predicate Valid()
      reads this, wall
    {
      && wall.Length0 == MAPSIZE && wall.Length1 == MAPSIZE
      && jumpPoint.Length0 == MAPSIZE && jumpPoint.Length1 == MAPSIZE && jumpPoint.Length2 == 4
      && distance.Length0 == MAPSIZE && distance.Length1 == MAPSIZE && distance.Length2 == DIRCOUNT
      && 0 <= mapWidth <= MAPSIZE && 0 <= mapHeight <= MAPSIZE
      && WellFormed(grid) && grid.width == mapWidth && grid.height == mapHeight
      && forall r, c :: Grids.InBounds(mapWidth, mapHeight, r, c) ==> wall[r, c] == grid.walls[r][c]
    }

    /** No jump point flag is set. */
    ghost predicate JumpFlagsClear()
      reads this, jumpPoint
    {
      forall r, c, k :: 0 <= r < jumpPoint.Length0 && 0 <= c < jumpPoint.Length1 && 0 <= k < jumpPoint.Length2 ==>
        !jumpPoint[r, c, k]
    }

    /** The flags are exactly the primary jump points of the grid. */
    ghost predicate PrimaryMarked()
      reads this, wall, jumpPoint
      requires Valid()
    {
      forall r, c, k :: 0 <= r < MAPSIZE && 0 <= c < MAPSIZE && 0 <= k < 4 ==>
        jumpPoint[r, c, k] == IsPrimaryJumpPoint(grid, r, c, FromIndex(k))
    }

    /** Every free cell's slot for `d` holds its table entry. */
    ghost predicate Computed(d: Dir)
      reads this, wall, distance
      requires Valid()
    {
      forall r, c :: IsFree(grid, r, c) ==> distance[r, c, Index(d)] == JumpDist(grid, r, c, d)
    }

    /** The constructor clears every jump point flag (the `memset`). */
    constructor ()
      ensures Valid() && JumpFlagsClear()
      ensures mapWidth == 0 && mapHeight == 0
      ensures fresh(wall) && fresh(jumpPoint) && fresh(distance)
    {
      mapWidth, mapHeight := 0, 0;
      wall := new bool[MAPSIZE, MAPSIZE];
      jumpPoint := new bool[MAPSIZE, MAPSIZE, 4]((r, c, k) => false);
      distance := new int[MAPSIZE, MAPSIZE, DIRCOUNT];
      grid := Grid(0, 0, []);
    }

    /** `inBounds`: (r, c) is a cell of the grid, so it indexes the arrays. */
    function InBounds(r: int, c: int): (b: bool)
      reads this, wall
      requires Valid()
      ensures b <==> 0 <= r < |grid.walls| && 0 <= c < |grid.walls[r]|
      ensures b ==> r < wall.Length0 && c < wall.Length1
    {
      0 <= r < mapHeight && 0 <= c < mapWidth
    }

    /** `isWall`: defined only on the grid, where it reads the wall grid. */
    function IsWall(r: int, c: int): (b: bool)
      reads this, wall
      requires Valid() && InBounds(r, c)
      ensures b == grid.walls[r][c]
    {
      wall[r, c]
    }

    /** `read`: one row string per grid row; fails (the source's assertion)
        when a row does not have `width` characters. */
    method Read(width: int, height: int, rows: seq<string>) returns (ok: bool)
      requires Valid()
      requires 0 <= width <= MAPSIZE && 0 <= height <= MAPSIZE && |rows| == height
      modifies this`mapWidth, this`mapHeight, this`grid, wall
      ensures ok <==> forall i :: 0 <= i < height ==> |rows[i]| == width
      ensures ok ==> Valid() && mapWidth == width && mapHeight == height
      ensures ok ==> grid == ParseWalls(width, height, rows)
    {
      mapWidth, mapHeight := width, height;
      var i := 0;
      while i < height
        invariant 0 <= i <= height
        invariant mapWidth == width && mapHeight == height
        invariant forall i' :: 0 <= i' < i ==> |rows[i']| == width
        invariant forall r, c :: 0 <= r < i && 0 <= c < width ==> wall[r, c] == (rows[r][c] == '#')
      {
        if |rows[i]| != width {
          return false;
        }
        for j := 0 to width
          invariant mapWidth == width && mapHeight == height
          invariant forall r, c :: 0 <= r < i && 0 <= c < width ==> wall[r, c] == (rows[r][c] == '#')
          invariant forall c :: 0 <= c < j ==> wall[i, c] == (rows[i][c] == '#')
        {
          wall[i, j] := rows[i][j] == '#';
        }
        i := i + 1;
      }
      grid := ParseWalls(width, height, rows);
      ok := true;
    }

    /** The flags of cells before (k0, r0, c0) in pass order (cardinal
        enumerator value, then row, then column) are the primary jump points;
        the rest are still clear. */
    ghost predicate PrimaryMarkedBefore(k0: int, r0: int, c0: int)
      reads this, wall, jumpPoint
      requires Valid()
    {
      forall r, c, k :: 0 <= r < MAPSIZE && 0 <= c < MAPSIZE && 0 <= k < 4 ==>
        jumpPoint[r, c, k] ==
          ((k < k0 || (k == k0 && (r < r0 || (r == r0 && c < c0)))) && IsPrimaryJumpPoint(grid, r, c, FromIndex(k)))
    }

    /** `calculatePrimaryJumpPoints`: flags every primary jump point, one
        cardinal at a time, rows then columns. */
    method CalculatePrimaryJumpPoints()
      requires Valid() && JumpFlagsClear()
      modifies jumpPoint
      ensures PrimaryMarked()
    {
      for k := 0 to 4
        invariant PrimaryMarkedBefore(k, 0, 0)
      {
        for r := 0 to mapHeight
          invariant PrimaryMarkedBefore(k, r, 0)
        {
          for c := 0 to mapWidth
            invariant PrimaryMarkedBefore(k, r, c)
          {
            MarkPrimary(r, c, k);
          }
        }
      }
    }

    /** One side of the primary jump point test: beside the predecessor
        (pr, pc), offset (sr, sc), is a wall, while beside the cell (r, c),
        on the same side, is a free cell. */
    method SideTest(pr: int, pc: int, r: int, c: int, sr: int, sc: int) returns (b: bool)
      requires Valid()
      ensures b == (Grids.IsWall(grid, pr + sr, pc + sc) && IsFree(grid, r + sr, c + sc))
    {
      b := InBounds(pr + sr, pc + sc) && InBounds(r + sr, c + sc) && IsWall(pr + sr, pc + sc) && !IsWall(r + sr, c + sc);
    }

    /** The test in the loop body of `calculatePrimaryJumpPoints`: free cell
        C is a primary jump point for a cardinal when its free predecessor P
        has, on one side, a wall beside it while C has a free cell on that
        side. */
    method PrimaryTest(r: int, c: int, k: int) returns (primary: bool)
      requires Valid() && InBounds(r, c) && 0 <= k < 4
      ensures primary == IsPrimaryJumpPoint(grid, r, c, FromIndex(k))
    {
      var dir := FromIndex(k);
      var dr, dc := DRow(dir), DCol(dir);
      primary := false;
      if !IsWall(r, c) {
        var pr, pc := r - dr, c - dc;
        if InBounds(pr, pc) && !IsWall(pr, pc) {
          primary := SideTest(pr, pc, r, c, dc, dr);
          if !primary {
            primary := SideTest(pr, pc, r, c, -dc, -dr);
          }
        }
      }
    }

    /** The loop body of `calculatePrimaryJumpPoints`: sets the flag of a
        primary jump point; nothing else changes. */
    method MarkPrimary(r: int, c: int, k: int)
      requires Valid() && InBounds(r, c) && 0 <= k < 4 && !jumpPoint[r, c, k]
      modifies jumpPoint
      ensures jumpPoint[r, c, k] == IsPrimaryJumpPoint(grid, r, c, FromIndex(k))
      ensures forall r', c', k' ::
        (0 <= r' < MAPSIZE && 0 <= c' < MAPSIZE && 0 <= k' < 4 && (r' != r || c' != c || k' != k)) ==>
        jumpPoint[r', c', k'] == old(jumpPoint[r', c', k'])
    {
      var primary := PrimaryTest(r, c, k);
      if primary {
        jumpPoint[r, c, k] := true;
      }
    }

    /** The value the loop body of `calculateStraightJumpPoints` stores: 0
        before a wall or the edge, 1 before a primary jump point, otherwise
        the neighbour's entry extended by one. */
    method StraightNext(r: int, c: int, d: Dir) returns (v: int)
      requires Valid() && PrimaryMarked() && IsFree(grid, r, c) && IsCardinal(d)
      requires IsFree(grid, r + DRow(d), c + DCol(d)) ==>
        distance[r + DRow(d), c + DCol(d), Index(d)] == JumpDist(grid, r + DRow(d), c + DCol(d), d)
      ensures v == JumpDist(grid, r, c, d)
    {
      var k := Index(d);
      var pr, pc := r + DRow(d), c + DCol(d);
      IndexRoundTrip(d);
      if !InBounds(pr, pc) || IsWall(pr, pc) {
        v := 0;
      } else if jumpPoint[pr, pc, k] {
        v := 1;
      } else {
        var next := distance[pr, pc, k];
        v := next + (if next <= 0 then -1 else 1);
      }
    }

    /** The value the loop body of `calculateDiagonalJumpPoints` stores: 0
        when the step or either corner is blocked, 1 when the neighbour has
        a positive entry along one of the diagonal's cardinal components,
        otherwise the neighbour's entry extended by one. */
    method DiagonalNext(r: int, c: int, d: Dir) returns (v: int)
      requires Valid() && IsFree(grid, r, c) && !IsCardinal(d)
      requires IsFree(grid, r + DRow(d), c + DCol(d)) ==>
        distance[r + DRow(d), c + DCol(d), Index(d)] == JumpDist(grid, r + DRow(d), c + DCol(d), d)
      requires forall d' :: IsCardinal(d') ==> Computed(d')
      ensures v == JumpDist(grid, r, c, d)
    {
      var k := Index(d);
      var dr, dc := DRow(d), DCol(d);
      var pr, pc := r + dr, c + dc;
      if || !InBounds(r + dr, c) || !InBounds(r, c + dc) || !InBounds(pr, pc)
         || IsWall(r + dr, c) || IsWall(r, c + dc) || IsWall(pr, pc) {
        assert !CanStep(grid, r, c, d);
        v := 0;
      } else {
        assert CanStep(grid, r, c, d);
        var vertical, horizontal := Vertical(d), Horizontal(d);
        assert Computed(vertical) && Computed(horizontal);
        var reached := distance[pr, pc, Index(vertical)] > 0 || distance[pr, pc, Index(horizontal)] > 0;
        assert reached == IsTarget(grid, pr, pc, d);
        if reached {
          v := 1;
        } else {
          var next := distance[pr, pc, k];
          v := next + (if next <= 0 then -1 else 1);
        }
      }
    }

    /** One table entry from the neighbour's; nothing else changes. */
    method ComputeDistance(r: int, c: int, d: Dir)
      requires Valid() && PrimaryMarked() && IsFree(grid, r, c)
      requires IsFree(grid, r + DRow(d), c + DCol(d)) ==>
        distance[r + DRow(d), c + DCol(d), Index(d)] == JumpDist(grid, r + DRow(d), c + DCol(d), d)
      requires !IsCardinal(d) ==> forall d' :: IsCardinal(d') ==> Computed(d')
      modifies distance
      ensures distance[r, c, Index(d)] == JumpDist(grid, r, c, d)
      ensures forall r', c', k' ::
        (0 <= r' < MAPSIZE && 0 <= c' < MAPSIZE && 0 <= k' < DIRCOUNT && (r' != r || c' != c || k' != Index(d))) ==>
        distance[r', c', k'] == old(distance[r', c', k'])
    {
      var v;
      if IsCardinal(d) {
        v := StraightNext(r, c, d);
      } else {
        v := DiagonalNext(r, c, d);
      }
      distance[r, c, Index(d)] := v;
    }


    /** Every free cell before sweep position (i, j) holds its entry for `d`. */
    ghost predicate SweptUpTo(d: Dir, rowsUp: bool, colsUp: bool, i: int, j: int)
      reads this, wall, distance
      requires Valid()
    {
      forall r, c :: IsFree(grid, r, c) && SweptBefore(mapWidth, mapHeight, rowsUp, colsUp, r, c, i, j) ==>
        distance[r, c, Index(d)] == JumpDist(grid, r, c, d)
    }

    /** The loop body of a distance pass at sweep position (i, j): a free
        cell gets its entry for `d`; nothing else changes. */
    method SweepCell(d: Dir, rowsUp: bool, colsUp: bool, i: int, j: int)
      requires Valid() && PrimaryMarked() && 0 <= i < mapHeight && 0 <= j < mapWidth
      requires SweepOrderSound(d, rowsUp, colsUp)
      requires !IsCardinal(d) ==> forall d' :: IsCardinal(d') ==> Computed(d')
      requires SweptUpTo(d, rowsUp, colsUp, i, j)
      modifies distance
      ensures SweptUpTo(d, rowsUp, colsUp, i, j + 1)
      ensures !IsCardinal(d) ==> forall d' :: IsCardinal(d') ==> Computed(d')
      ensures forall r, c, k ::
        (0 <= r < MAPSIZE && 0 <= c < MAPSIZE && 0 <= k < DIRCOUNT && (k != Index(d) || !IsFree(grid, r, c))) ==>
        distance[r, c, k] == old(distance[r, c, k])
    {
      var r := if rowsUp then i else mapHeight - 1 - i;
      var c := if colsUp then j else mapWidth - 1 - j;
      if !IsWall(r, c) {
        if IsFree(grid, r + DRow(d), c + DCol(d)) {
          NeighbourSweptFirst(mapWidth, mapHeight, d, rowsUp, colsUp, r, c);
        }
        ComputeDistance(r, c, d);
      }
      forall r', c' | IsFree(grid, r', c') && SweptBefore(mapWidth, mapHeight, rowsUp, colsUp, r', c', i, j + 1)
        ensures distance[r', c', Index(d)] == JumpDist(grid, r', c', d)
      {
        if r' != r || c' != c {
          assert SweptBefore(mapWidth, mapHeight, rowsUp, colsUp, r', c', i, j);
        }
      }
    }

    /** One row of a pass of the distance loops: every free cell of the row
        at sweep position `i` gets its entry for `d`; nothing else changes. */
    method SweepRow(d: Dir, rowsUp: bool, colsUp: bool, i: int)
      requires Valid() && PrimaryMarked() && 0 <= i < mapHeight
      requires SweepOrderSound(d, rowsUp, colsUp)
      requires !IsCardinal(d) ==> forall d' :: IsCardinal(d') ==> Computed(d')
      requires SweptUpTo(d, rowsUp, colsUp, i, 0)
      modifies distance
      ensures SweptUpTo(d, rowsUp, colsUp, i + 1, 0)
      ensures !IsCardinal(d) ==> forall d' :: IsCardinal(d') ==> Computed(d')
      ensures forall r, c, k ::
        (0 <= r < MAPSIZE && 0 <= c < MAPSIZE && 0 <= k < DIRCOUNT && (k != Index(d) || !IsFree(grid, r, c))) ==>
        distance[r, c, k] == old(distance[r, c, k])
    {
      for j := 0 to mapWidth
        invariant SweptUpTo(d, rowsUp, colsUp, i, j)
        invariant !IsCardinal(d) ==> forall d' :: IsCardinal(d') ==> Computed(d')
        invariant forall r, c, k ::
          (0 <= r < MAPSIZE && 0 <= c < MAPSIZE && 0 <= k < DIRCOUNT && (k != Index(d) || !IsFree(grid, r, c))) ==>
          distance[r, c, k] == old(distance[r, c, k])
      {
        SweepCell(d, rowsUp, colsUp, i, j);
      }
    }

    /** One pass of the distance loops: every free cell, in a sweep order
        that visits the neighbour along `d` first, gets its entry for `d`;
        nothing else changes. */
    method Sweep(d: Dir, rowsUp: bool, colsUp: bool)
      requires Valid() && PrimaryMarked()
      requires SweepOrderSound(d, rowsUp, colsUp)
      requires !IsCardinal(d) ==> forall d' :: IsCardinal(d') ==> Computed(d')
      modifies distance
      ensures Computed(d)
      ensures forall r, c, k ::
        (0 <= r < MAPSIZE && 0 <= c < MAPSIZE && 0 <= k < DIRCOUNT && (k != Index(d) || !IsFree(grid, r, c))) ==>
        distance[r, c, k] == old(distance[r, c, k])
    {
      for i := 0 to mapHeight
        invariant SweptUpTo(d, rowsUp, colsUp, i, 0)
        invariant !IsCardinal(d) ==> forall d' :: IsCardinal(d') ==> Computed(d')
        invariant forall r, c, k ::
          (0 <= r < MAPSIZE && 0 <= c < MAPSIZE && 0 <= k < DIRCOUNT && (k != Index(d) || !IsFree(grid, r, c))) ==>
          distance[r, c, k] == old(distance[r, c, k])
      {
        SweepRow(d, rowsUp, colsUp, i);
      }
    }

    /** `calculateStraightJumpPoints`: NORTH and WEST sweep rows and columns
        increasing, SOUTH and EAST decreasing. */
    method CalculateStraightJumpPoints()
      requires Valid() && PrimaryMarked()
      modifies distance
      ensures forall d :: IsCardinal(d) ==> Computed(d)
      ensures forall r, c, k :: 0 <= r < MAPSIZE && 0 <= c < MAPSIZE && 4 <= k < DIRCOUNT ==>
        distance[r, c, k] == old(distance[r, c, k])
    {
      Sweep(North, true, true);
      Sweep(West, true, true);
      Sweep(South, false, false);
      Sweep(East, false, false);
    }

    /** `calculateDiagonalJumpPoints`: NORTHWEST and NORTHEAST sweep rows
        increasing, SOUTHWEST and SOUTHEAST decreasing, reading the cardinal
        entries of the straight pass. */
    method CalculateDiagonalJumpPoints()
      requires Valid() && PrimaryMarked()
      requires forall d :: IsCardinal(d) ==> Computed(d)
      modifies distance
      ensures forall d :: Computed(d)
    {
      Sweep(NorthWest, true, true);
      Sweep(NorthEast, true, true);
      Sweep(SouthWest, false, true);
      Sweep(SouthEast, false, true);
    }
    /** A printed line shows a free cell and its eight table slots in the
        order N, NE, E, SE, S, SW, W, NW. */
    ghost predicate ShowsCell(line: DistanceLine)
      reads this, wall, distance
      requires Valid()
    {
      && IsFree(grid, line.row, line.col)
      && |line.dists| == DIRCOUNT
      && forall j :: 0 <= j < DIRCOUNT ==> line.dists[j] == distance[line.row, line.col, Index(AllDirs()[j])]
    }

    /** What `printDistances` prints: one line per free cell, in row-major
        order. */
    ghost predicate PrintsTable(lines: seq<DistanceLine>)
      reads this, wall, distance
      requires Valid()
    {
      && (forall i :: 0 <= i < |lines| ==> ShowsCell(lines[i]))
      && (forall i, i' :: 0 <= i < i' < |lines| ==> RowMajorBefore(lines[i], lines[i']))
      && (forall r, c :: IsFree(grid, r, c) ==>
            exists i :: 0 <= i < |lines| && lines[i].row == r && lines[i].col == c)
    }

    /** The line `printDistances` prints for one free cell. */
    method CellLine(r: int, c: int) returns (line: DistanceLine)
      requires Valid() && IsFree(grid, r, c)
      ensures ShowsCell(line) && line.row == r && line.col == c
    {
      var dists := [];
      for j := 0 to DIRCOUNT
        invariant |dists| == j
        invariant forall j' :: 0 <= j' < j ==> dists[j'] == distance[r, c, Index(AllDirs()[j'])]
      {
        dists := dists + [distance[r, c, Index(AllDirs()[j])]];
      }
      line := DistanceLine(c, r, dists);
    }

    /** The lines so far show, in row-major order, exactly the free cells
        before position (r, c) of the printing loops. */
    ghost predicate PrintedBefore(lines: seq<DistanceLine>, r: int, c: int)
      reads this, wall, distance
      requires Valid()
    {
      && (forall i :: 0 <= i < |lines| ==>
            ShowsCell(lines[i]) && (lines[i].row < r || (lines[i].row == r && lines[i].col < c)))
      && (forall i, i' :: 0 <= i < i' < |lines| ==> RowMajorBefore(lines[i], lines[i']))
      && (forall r', c' :: (r' < r || (r' == r && c' < c)) && IsFree(grid, r', c') ==>
            exists i :: 0 <= i < |lines| && lines[i].row == r' && lines[i].col == c')
    }

    /** Printing the line of the free cell at position (r, c) moves the
        printing loops one cell on. */
    lemma PrintedAppend(lines: seq<DistanceLine>, line: DistanceLine, r: int, c: int)
      requires Valid() && PrintedBefore(lines, r, c)
      requires ShowsCell(line) && line.row == r && line.col == c
      ensures PrintedBefore(lines + [line], r, c + 1)
    {
      var lines' := lines + [line];
      forall r', c' | (r' < r || (r' == r && c' <= c)) && IsFree(grid, r', c')
        ensures exists i :: 0 <= i < |lines'| && lines'[i].row == r' && lines'[i].col == c'
      {
        if r' == r && c' == c {
          assert lines'[|lines|].row == r' && lines'[|lines|].col == c';
        } else {
          var i :| 0 <= i < |lines| && lines[i].row == r' && lines[i].col == c';
          assert lines'[i] == lines[i];
        }
      }
    }

    /** The inner printing loop: the lines of the free cells of row `r`, in
        column order. */
    method PrintRow(r: int, prefix: seq<DistanceLine>) returns (lines: seq<DistanceLine>)
      requires Valid() && 0 <= r < mapHeight && PrintedBefore(prefix, r, 0)
      ensures PrintedBefore(lines, r + 1, 0)
    {
      lines := prefix;
      for c := 0 to mapWidth
        invariant PrintedBefore(lines, r, c)
      {
        if !IsWall(r, c) {
          var line := CellLine(r, c);
          PrintedAppend(lines, line, r, c);
          lines := lines + [line];
        }
      }
    }

    /** `printDistances`, with the printed lines returned. */
    method PrintDistances() returns (lines: seq<DistanceLine>)
      requires Valid()
      ensures PrintsTable(lines)
    {
      lines := [];
      for r := 0 to mapHeight
        invariant PrintedBefore(lines, r, 0)
      {
        lines := PrintRow(r, lines);
      }
    }

    /** `preprocessing`: the three passes and the printout; every printed
        slot is the table entry `JumpDist` of its cell and direction. */
    method Preprocessing() returns (lines: seq<DistanceLine>)
      requires Valid() && JumpFlagsClear()
      modifies jumpPoint, distance
      ensures PrimaryMarked() && forall d :: Computed(d)
      ensures PrintsTable(lines)
      ensures forall i, j :: 0 <= i < |lines| && 0 <= j < DIRCOUNT ==>
        |lines[i].dists| == DIRCOUNT && lines[i].dists[j] == JumpDist(grid, lines[i].row, lines[i].col, AllDirs()[j])
    {
      CalculatePrimaryJumpPoints();
      CalculateStraightJumpPoints();
      CalculateDiagonalJumpPoints();
      lines := PrintDistances();
      forall i, j | 0 <= i < |lines| && 0 <= j < DIRCOUNT
        ensures |lines[i].dists| == DIRCOUNT && lines[i].dists[j] == JumpDist(grid, lines[i].row, lines[i].col, AllDirs()[j])
      {
        assert ShowsCell(lines[i]) && Computed(AllDirs()[j]);
      }
    }
  }
}
