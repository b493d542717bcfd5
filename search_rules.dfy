/** The integer rules of the online search: the sign helper, path costs as
    exact (straight, diagonal) step counts, the octile estimate, and the
    successor a node generates in one direction from one table entry. */
module SearchRules {
  import opened Options
  import opened Directions
  import opened Grids

  /** `sign`: the unit in the direction of `x`. */
  function Sign(x: int): (s: int)
    ensures -1 <= s <= 1
    ensures s * x == Abs(x)
    ensures s == 0 <==> x == 0
  {
    if x < 0 then -1 else if x == 0 then 0 else 1
  }

  /** A path cost: so many straight unit steps plus so many diagonal ones. */
  datatype Cost = Cost(straight: nat, diagonal: nat)

  /** The `double` value of `std::sqrt(2.0)`, written out exactly. */
  const SQRT2: real := 1.4142135623730951454746218587388284504413604736328125

  function Value(c: Cost): real
  {
    c.straight as real + c.diagonal as real * SQRT2
  }

  function Steps(c: Cost): nat
  {
    c.straight + c.diagonal
  }

  /** Costs add step kind by step kind, and their values add. */
  function Add(a: Cost, b: Cost): (s: Cost)
    ensures Value(s) == Value(a) + Value(b)
    ensures Steps(s) == Steps(a) + Steps(b)
  {
    Cost(a.straight + b.straight, a.diagonal + b.diagonal)
  }

  /** The best known cost of a cell; `Infinite` stands for `INFINITY`. */
  datatype Best = Infinite | Finite(cost: Cost)

  /** `givenCost < distanceToGoal[r][c]`. */
  predicate Improves(c: Cost, b: Best)
  {
    b.Infinite? || Value(c) < Value(b.cost)
  }

  /** The cost of `steps` unit moves along `d`. */
  function JumpCost(d: Dir, steps: nat): (c: Cost)
    ensures Steps(c) == steps
    ensures IsCardinal(d) ==> Value(c) == steps as real
    ensures !IsCardinal(d) ==> Value(c) == steps as real * SQRT2
  {
    if IsCardinal(d) then Cost(steps, 0) else Cost(0, steps)
  }

  /** Octile distance: diagonal moves while both gaps remain, then straight
      moves for the rest. */
  function Octile(dRow: nat, dCol: nat): Cost
  {
    Cost(Max(dRow, dCol) - Min(dRow, dCol), Min(dRow, dCol))
  }

  /** The estimate is zero exactly at the goal. */
  lemma OctileZero(dRow: nat, dCol: nat)
    ensures Value(Octile(dRow, dCol)) == 0.0 <==> dRow == 0 && dCol == 0
  {
  }

  /** The estimate never exceeds the cost of any sequence of unit moves
      closing the same gaps: `s` straight and `g` diagonal moves change each
      coordinate by at most s + g and both together by at most s + 2g. */
  lemma OctileAdmissible(dRow: nat, dCol: nat, s: nat, g: nat)
    requires Max(dRow, dCol) <= s + g && dRow + dCol <= s + 2 * g
    ensures Value(Octile(dRow, dCol)) <= Value(Cost(s, g))
  {
    var m := Min(dRow, dCol);
    if m <= g {
      assert Max(dRow, dCol) - m <= s + (g - m);
      assert (g - m) as real <= (g - m) as real * SQRT2;
    } else {
      assert Max(dRow, dCol) - m <= s + 2 * g - 2 * m;
      assert (m - g) as real * (2.0 - SQRT2) >= 0.0;
    }
  }

  /** The octile estimate for the signed gaps (dRow, dCol). */
  function Estimate(dRow: int, dCol: int): real
  {
    Value(Octile(Abs(dRow), Abs(dCol)))
  }

  /** The estimate obeys the triangle inequality. */
  lemma OctileTriangle(a: int, b: int, x: int, y: int, p: int, q: int)
    requires p == a - x && q == b - y
    ensures Estimate(a, b) <= Estimate(x, y) + Estimate(p, q)
  {
    var s := Octile(Abs(x), Abs(y));
    var t := Octile(Abs(p), Abs(q));
    OctileAdmissible(Abs(a), Abs(b), s.straight + t.straight, s.diagonal + t.diagonal);
  }

  /** Cell (r, c) lies `k >= 1` unit steps from (row, col) along `d`. */
  predicate OnRay(row: int, col: int, d: Dir, k: int, r: int, c: int)
  {
    k >= 1 && r == Shift(row, DRow(d), k) && c == Shift(col, DCol(d), k)
  }

  /** A straight run of `k` unit moves along `d` displaced by (p, q) costs
      exactly its octile estimate. */
  lemma RayEstimate(d: Dir, k: int, p: int, q: int)
    requires k >= 1 && p == Shift(0, DRow(d), k) && q == Shift(0, DCol(d), k)
    ensures Estimate(p, q) == Value(JumpCost(d, k))
  {
    if IsCardinal(d) {
      assert Abs(p) + Abs(q) == k && (Abs(p) == 0 || Abs(q) == 0);
    } else {
      assert Abs(p) == k && Abs(q) == k;
    }
  }

  /** Along any jump the estimate falls by at most the jump's cost: when a
      jump of `k` steps along `d` turns the gaps to the goal from (gapRow,
      gapCol) into (gapRow', gapCol'), the estimate before is at most the
      jump cost plus the estimate after, so sort keys never decrease from a
      node to the nodes it pushes. */
  lemma HeuristicConsistent(gapRow: int, gapCol: int, d: Dir, k: int, gapRow': int, gapCol': int)
    requires k >= 1 && gapRow == Shift(gapRow', DRow(d), k) && gapCol == Shift(gapCol', DCol(d), k)
    ensures Estimate(gapRow, gapCol) <= Value(JumpCost(d, k)) + Estimate(gapRow', gapCol')
  {
    var p, q := gapRow - gapRow', gapCol - gapCol';
    RayEstimate(d, k, p, q);
    OctileTriangle(gapRow, gapCol, gapRow', gapCol', p, q);
  }

  /** A generated successor: the cell and the number of unit steps to it. */
  datatype Jump = Jump(row: int, col: int, steps: nat)

  /** The successor of (row, col) along `d` given the table entry `entry`
      for that cell and direction: the cardinal goal shortcut, the diagonal
      goal shortcut, or a jump of `entry` steps to the precomputed jump
      point when `entry` is positive. Any successor lies on the ray along
      `d` within the table's reach. */
  function Successor(row: int, col: int, goalRow: int, goalCol: int, d: Dir, entry: int): (j: Option<Jump>)
    ensures j.Some? ==> 1 <= j.value.steps <= Abs(entry)
    ensures j.Some? ==> OnRay(row, col, d, j.value.steps, j.value.row, j.value.col)
  {
    var toGoalDiffRow, toGoalDiffCol := goalRow - row, goalCol - col;
    var dist := Abs(entry);
    var inDirectionRow := Sign(toGoalDiffRow) == DRow(d);
    var inDirectionCol := Sign(toGoalDiffCol) == DCol(d);
    if IsCardinal(d) && inDirectionRow && inDirectionCol && Abs(toGoalDiffRow) + Abs(toGoalDiffCol) <= dist then
      Some(Jump(goalRow, goalCol, Abs(toGoalDiffRow) + Abs(toGoalDiffCol)))
    else if !IsCardinal(d) && inDirectionRow && inDirectionCol
      && (Abs(toGoalDiffRow) <= dist || Abs(toGoalDiffCol) <= dist) then
      var m := Min(Abs(toGoalDiffRow), Abs(toGoalDiffCol));
      Some(Jump(Shift(row, DRow(d), m), Shift(col, DCol(d), m), m))
    else if entry > 0 then
      Some(Jump(Shift(row, DRow(d), dist), Shift(col, DCol(d), dist), dist))
    else
      None
  }

  /** When a goal shortcut applies: for a cardinal, the goal lies on the ray
      at most |entry| steps away; for a diagonal, the goal lies strictly
      ahead in both coordinates and the diagonal lines up with its row or
      column within |entry| steps. */
  predicate GoalShortcut(row: int, col: int, goalRow: int, goalCol: int, d: Dir, entry: int)
  {
    if IsCardinal(d) then
      exists k :: 1 <= k <= Abs(entry) && OnRay(row, col, d, k, goalRow, goalCol)
    else
      && Sign(goalRow - row) == DRow(d) && Sign(goalCol - col) == DCol(d)
      && Min(Abs(goalRow - row), Abs(goalCol - col)) <= Abs(entry)
  }

  /** The three successor rules. */
  lemma SuccessorRules(row: int, col: int, goalRow: int, goalCol: int, d: Dir, entry: int)
    ensures IsCardinal(d) ==> forall k :: 1 <= k <= Abs(entry) && OnRay(row, col, d, k, goalRow, goalCol) ==>
      Successor(row, col, goalRow, goalCol, d, entry) == Some(Jump(goalRow, goalCol, k))
    ensures !IsCardinal(d) && GoalShortcut(row, col, goalRow, goalCol, d, entry) ==>
      var j := Successor(row, col, goalRow, goalCol, d, entry);
      && j.Some?
      && (j.value.row == goalRow || j.value.col == goalCol)
      && j.value.steps == Min(Abs(goalRow - row), Abs(goalCol - col))
    ensures !GoalShortcut(row, col, goalRow, goalCol, d, entry) ==>
      var j := Successor(row, col, goalRow, goalCol, d, entry);
      && (j.Some? <==> entry > 0)
      && (j.Some? ==> j.value.steps == entry)
  {
    var toGoalDiffRow, toGoalDiffCol := goalRow - row, goalCol - col;
    if IsCardinal(d) && Sign(toGoalDiffRow) == DRow(d) && Sign(toGoalDiffCol) == DCol(d)
      && Abs(toGoalDiffRow) + Abs(toGoalDiffCol) <= Abs(entry) {
      assert OnRay(row, col, d, Abs(toGoalDiffRow) + Abs(toGoalDiffCol), goalRow, goalCol);
    }
  }

  /** Every successor stays on the grid when the table entry is no larger
      than the room along `d`; the goal need not be on the grid. */
  lemma SuccessorInBounds(width: int, height: int, row: int, col: int, goalRow: int, goalCol: int, d: Dir, entry: int)
    requires InBounds(width, height, row, col)
    requires Abs(entry) <= Room(width, height, row, col, d)
    ensures var j := Successor(row, col, goalRow, goalCol, d, entry);
      j.Some? ==> InBounds(width, height, j.value.row, j.value.col)
  {
  }
}
