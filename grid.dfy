/** The wall grid and the geometry both phases share: bounds, walking k
    steps along a direction, and how many such steps stay on the grid. */
module Grids {
  import opened Directions

  /** Upper bound on width and height of the fixed-size state arrays. */
  const MAPSIZE: nat := 20

  /** Wall occupancy of a width x height grid, indexed `walls[row][col]`. */
  datatype Grid = Grid(width: nat, height: nat, walls: seq<seq<bool>>)

  predicate WellFormed(g: Grid)
  {
    |g.walls| == g.height && forall r :: 0 <= r < g.height ==> |g.walls[r]| == g.width
  }

  /** `inBounds`: the cell lies on a width x height grid; on a grid that
      fits the fixed-size arrays, such a cell indexes them. */
  function InBounds(width: int, height: int, r: int, c: int): (b: bool)
    ensures b && width <= MAPSIZE && height <= MAPSIZE ==> 0 <= r < MAPSIZE && 0 <= c < MAPSIZE
  {
    0 <= r < height && 0 <= c < width
  }

  /** An in-bounds cell that is not a wall. */
  predicate IsFree(g: Grid, r: int, c: int)
    requires WellFormed(g)
  {
    InBounds(g.width, g.height, r, c) && !g.walls[r][c]
  }

  /** An in-bounds cell that is a wall. */
  predicate IsWall(g: Grid, r: int, c: int)
    requires WellFormed(g)
  {
    InBounds(g.width, g.height, r, c) && g.walls[r][c]
  }

  function Abs(x: int): (a: nat)
    ensures a == x || a == -x
  {
    if x < 0 then -x else x
  }

  function Min(a: int, b: int): (m: int)
    ensures m <= a && m <= b && (m == a || m == b)
  {
    if a < b then a else b
  }

  function Max(a: int, b: int): (m: int)
    ensures m >= a && m >= b && (m == a || m == b)
  {
    if a < b then b else a
  }

  /** Coordinate `x` moved `k` steps by a unit delta (`x + k * delta`),
      stated case by case so that it stays linear. */
  function Shift(x: int, delta: int, k: int): (y: int)
    requires -1 <= delta <= 1
    ensures delta == 0 ==> y == x
    ensures delta == 1 ==> y == x + k
    ensures delta == -1 ==> y == x - k
  {
    if delta < 0 then x - k else if delta > 0 then x + k else x
  }

  /** The number of steps that can be taken from an in-bounds cell along `d`
      without leaving the grid. */
  function Room(width: int, height: int, r: int, c: int, d: Dir): (n: nat)
    requires InBounds(width, height, r, c)
    ensures n < Max(width, height)
  {
    var rows := if DRow(d) < 0 then r else height - 1 - r;
    var cols := if DCol(d) < 0 then c else width - 1 - c;
    if DRow(d) == 0 then cols else if DCol(d) == 0 then rows else Min(rows, cols)
  }

  /** Walking k >= 0 steps along `d` stays on the grid exactly when k is
      within the room. */
  lemma RoomExact(width: int, height: int, r: int, c: int, d: Dir, k: nat)
    requires InBounds(width, height, r, c)
    ensures InBounds(width, height, Shift(r, DRow(d), k), Shift(c, DCol(d), k)) <==> k <= Room(width, height, r, c, d)
  {
    if DRow(d) == 0 {
      assert Shift(r, DRow(d), k) == r;
    } else if DCol(d) == 0 {
      assert Shift(c, DCol(d), k) == c;
    }
  }

  /** A measure that falls with every step along `d` that stays on the grid:
      the distance to the edges the direction heads for. */
  function Progress(width: int, height: int, r: int, c: int, d: Dir): int
  {
    (if DRow(d) < 0 then r else if DRow(d) > 0 then height - r else 0)
    + (if DCol(d) < 0 then c else if DCol(d) > 0 then width - c else 0)
  }

  /** One step along `d` that stays on the grid uses up one unit of room; a
      cell with no room has its neighbour along `d` off the grid. */
  lemma RoomStep(width: int, height: int, r: int, c: int, d: Dir)
    requires InBounds(width, height, r, c)
    ensures InBounds(width, height, r + DRow(d), c + DCol(d)) <==> Room(width, height, r, c, d) > 0
    ensures InBounds(width, height, r + DRow(d), c + DCol(d)) ==>
      Room(width, height, r + DRow(d), c + DCol(d), d) == Room(width, height, r, c, d) - 1
  {
    RoomExact(width, height, r, c, d, 1);
    assert Shift(r, DRow(d), 1) == r + DRow(d);
    assert Shift(c, DCol(d), 1) == c + DCol(d);
  }
}
