/** What the preprocessing phase computes, as pure functions of the wall grid:
    the primary (forced-neighbour) jump points, the signed jump distance of
    every cell in every direction, and the meaning of that distance as a walk
    along the direction. */
module JumpTable {
  import opened Directions
  import opened Grids

  /** One line of the interchange table: "col row" and the eight distances in
      `AllDirs()` order. */
  datatype DistanceLine = DistanceLine(col: int, row: int, dists: seq<int>)

  /** Primary jump point of cardinal `d`: the free cell (r, c) entered from
      its free predecessor P = (r, c) - d, where on one side P's neighbour is
      a wall while the matching neighbour of (r, c) is free. */
  predicate IsPrimaryJumpPoint(g: Grid, r: int, c: int, d: Dir)
    requires WellFormed(g) && IsCardinal(d)
  {
    var dr, dc := DRow(d), DCol(d);
    var pr, pc := r - dr, c - dc;
    && IsFree(g, r, c)
    && IsFree(g, pr, pc)
    && (|| (IsWall(g, pr + dc, pc + dr) && IsFree(g, r + dc, c + dr))
        || (IsWall(g, pr - dc, pc - dr) && IsFree(g, r - dc, c - dr)))
  }

  /** One step from (r, c) along `d` is legal: the target is a free cell and,
      for a diagonal, both orthogonal corner cells are free too (no corner
      cutting). */
  predicate CanStep(g: Grid, r: int, c: int, d: Dir)
    requires WellFormed(g)
  {
    var pr, pc := r + DRow(d), c + DCol(d);
    IsFree(g, pr, pc) && (IsCardinal(d) || (IsFree(g, pr, c) && IsFree(g, r, pc)))
  }

  /** Lengthen a chain by one cell: a jump-point chain stays positive; a wall
      chain, including the 0 of an immediate wall, becomes or stays negative. */
  function Extend(x: int): (y: int)
    ensures (y > 0) == (x > 0)
    ensures Abs(y) == Abs(x) + 1
  {
    x + (if x <= 0 then -1 else 1)
  }

  /** Cardinals are ranked below diagonals, so a diagonal's entry may
      depend on cardinal entries at the same cell. */
  function Rank(d: Dir): nat
  {
    if IsCardinal(d) then 0 else 1
  }

  /** The table entry `distance[r][c][d]` the preprocessing phase computes,
      by the recurrence of `calculateStraightJumpPoints` for a cardinal and
      of `calculateDiagonalJumpPoints` for a diagonal: 0 when the step along
      `d` is blocked (for a diagonal, also by either corner cell), 1 when the
      cell reached is a jump target, otherwise that cell's entry extended by
      one. */
  function JumpDist(g: Grid, r: int, c: int, d: Dir): int
    requires WellFormed(g) && InBounds(g.width, g.height, r, c)
    decreases Rank(d), Progress(g.width, g.height, r, c, d), 1
  {
    if !CanStep(g, r, c, d) then 0
    else
      var pr, pc := r + DRow(d), c + DCol(d);
      if IsTarget(g, pr, pc, d) then 1
      else Extend(JumpDist(g, pr, pc, d))
  }

  /** A cell a walk along `d` stops at as a jump target: a primary jump point
      for a cardinal; for a diagonal, a cell whose entry along either of the
      diagonal's cardinal components (`Vertical` and `Horizontal`, the first
      two entries of the diagonal's `validDirections` row) is positive. */
  predicate IsTarget(g: Grid, r: int, c: int, d: Dir)
    requires WellFormed(g) && InBounds(g.width, g.height, r, c)
    decreases Rank(d), Progress(g.width, g.height, r, c, d), 0
  {
    if IsCardinal(d) then IsPrimaryJumpPoint(g, r, c, d)
    else JumpDist(g, r, c, Vertical(d)) > 0 || JumpDist(g, r, c, Horizontal(d)) > 0
  }

  /** Walking from (r, c) along `d`: `n` legal steps, the first n - 1 cells
      reached are not targets and the n-th is one. */
  ghost predicate ReachesTarget(g: Grid, r: int, c: int, d: Dir, n: nat)
    requires WellFormed(g) && InBounds(g.width, g.height, r, c)
    decreases n
  {
    && n >= 1
    && CanStep(g, r, c, d)
    && var pr, pc := r + DRow(d), c + DCol(d);
       if n == 1 then IsTarget(g, pr, pc, d)
       else !IsTarget(g, pr, pc, d) && ReachesTarget(g, pr, pc, d, n - 1)
  }

  /** Walking from (r, c) along `d`: `m` legal steps onto cells that are not
      targets, after which the next step is blocked by a wall, a corner or the
      edge of the grid. */
  ghost predicate BlockedAfter(g: Grid, r: int, c: int, d: Dir, m: nat)
    requires WellFormed(g) && InBounds(g.width, g.height, r, c)
    decreases m
  {
    if m == 0 then !CanStep(g, r, c, d)
    else
      && CanStep(g, r, c, d)
      && var pr, pc := r + DRow(d), c + DCol(d);
         !IsTarget(g, pr, pc, d) && BlockedAfter(g, pr, pc, d, m - 1)
  }

  /** A positive entry n describes a walk reaching a jump target at its
      n-th cell. */
  lemma {:induction false} PositiveDistReaches(g: Grid, r: int, c: int, d: Dir)
    requires WellFormed(g) && InBounds(g.width, g.height, r, c)
    requires JumpDist(g, r, c, d) > 0
    ensures ReachesTarget(g, r, c, d, JumpDist(g, r, c, d))
    decreases Progress(g.width, g.height, r, c, d)
  {
    var n := JumpDist(g, r, c, d);
    var pr, pc := r + DRow(d), c + DCol(d);
    assert CanStep(g, r, c, d);
    if IsTarget(g, pr, pc, d) {
      assert n == 1;
    } else {
      assert n == JumpDist(g, pr, pc, d) + 1;
      PositiveDistReaches(g, pr, pc, d);
    }
  }

  /** An entry n <= 0 describes a walk of -n cells that is then blocked. */
  lemma {:induction false} NonPositiveDistBlocked(g: Grid, r: int, c: int, d: Dir)
    requires WellFormed(g) && InBounds(g.width, g.height, r, c)
    requires JumpDist(g, r, c, d) <= 0
    ensures BlockedAfter(g, r, c, d, -JumpDist(g, r, c, d))
    decreases Progress(g.width, g.height, r, c, d)
  {
    if CanStep(g, r, c, d) {
      NonPositiveDistBlocked(g, r + DRow(d), c + DCol(d), d);
    }
  }

  /** A walk reaching a jump target at its n-th cell is recorded as n. */
  lemma {:induction false} ReachesTargetDist(g: Grid, r: int, c: int, d: Dir, n: nat)
    requires WellFormed(g) && InBounds(g.width, g.height, r, c)
    requires ReachesTarget(g, r, c, d, n)
    ensures JumpDist(g, r, c, d) == n
    decreases n
  {
    var pr, pc := r + DRow(d), c + DCol(d);
    assert CanStep(g, r, c, d);
    if n == 1 {
      assert IsTarget(g, pr, pc, d);
    } else {
      assert !IsTarget(g, pr, pc, d) && ReachesTarget(g, pr, pc, d, n - 1);
      ReachesTargetDist(g, pr, pc, d, n - 1);
    }
  }

  /** A walk of m cells followed by a blocked step is recorded as -m. */
  lemma {:induction false} BlockedAfterDist(g: Grid, r: int, c: int, d: Dir, m: nat)
    requires WellFormed(g) && InBounds(g.width, g.height, r, c)
    requires BlockedAfter(g, r, c, d, m)
    ensures JumpDist(g, r, c, d) == -(m as int)
    decreases m
  {
    if m > 0 {
      BlockedAfterDist(g, r + DRow(d), c + DCol(d), d, m - 1);
    }
  }

  /** Meaning of an entry, both directions: the table holds n exactly when n
      > 0 and the walk reaches a jump target at the n-th cell, or n <= 0 and
      the walk passes -n cells and is then blocked by a wall, a corner or the
      edge. */
  lemma JumpDistMeaning(g: Grid, r: int, c: int, d: Dir, n: int)
    requires WellFormed(g) && InBounds(g.width, g.height, r, c)
    ensures JumpDist(g, r, c, d) == n <==>
      (n > 0 && ReachesTarget(g, r, c, d, n)) || (n <= 0 && BlockedAfter(g, r, c, d, -n))
  {
    if JumpDist(g, r, c, d) > 0 {
      PositiveDistReaches(g, r, c, d);
    } else {
      NonPositiveDistBlocked(g, r, c, d);
    }
    if n > 0 && ReachesTarget(g, r, c, d, n) {
      ReachesTargetDist(g, r, c, d, n);
    } else if n <= 0 && BlockedAfter(g, r, c, d, -n) {
      BlockedAfterDist(g, r, c, d, -n);
    }
  }

  /** The magnitude of an entry never exceeds the room on the grid along the
      direction, hence stays below max(width, height). */
  lemma {:induction false} JumpDistBound(g: Grid, r: int, c: int, d: Dir)
    requires WellFormed(g) && InBounds(g.width, g.height, r, c)
    ensures Abs(JumpDist(g, r, c, d)) <= Room(g.width, g.height, r, c, d)
    ensures Abs(JumpDist(g, r, c, d)) < Max(g.width, g.height)
    decreases Room(g.width, g.height, r, c, d)
  {
    RoomStep(g.width, g.height, r, c, d);
    if CanStep(g, r, c, d) && !IsTarget(g, r + DRow(d), c + DCol(d), d) {
      JumpDistBound(g, r + DRow(d), c + DCol(d), d);
    }
  }
}
