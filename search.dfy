/** The online phase (class `JPSPlus` of the runtime program): read the
    distance table, then run a best-first search from the start cell that
    discards stale queue entries, generates successors by the JPS+ rules and
    records each expanded cell with its parent and cost. */
module Search {
  import opened Options
  import opened Directions
  import opened Grids
  import opened JumpTable
  import opened SearchRules

  /** A queue entry: cell, parent cell, arrival direction and sort key. */
  datatype Node = Node(row: int, col: int, prow: int, pcol: int, dir: Arrival, sortCost: real)

  /** One printed line of the search: "col row pcol prow cost". */
  datatype Visit = Visit(col: int, row: int, pcol: int, prow: int, dist: Cost)

  /** Every line names a cell on the grid, holds eight entries, and none of
      its entries reaches farther than the grid allows along its direction. */
  ghost predicate LinesBounded(width: int, height: int, lines: seq<DistanceLine>)
  {
    forall i :: 0 <= i < |lines| ==>
      && InBounds(width, height, lines[i].row, lines[i].col)
      && |lines[i].dists| == DIRCOUNT
      && forall j :: 0 <= j < DIRCOUNT ==>
           Abs(lines[i].dists[j]) <= Room(width, height, lines[i].row, lines[i].col, AllDirs()[j])
  }

  /** The table the preprocessing phase prints obeys the bound the search
      relies on: its entries are the `JumpDist` values of free cells. */
  lemma PreprocessedLinesBounded(g: Grid, lines: seq<DistanceLine>)
    requires WellFormed(g)
    requires forall i :: 0 <= i < |lines| ==>
      && IsFree(g, lines[i].row, lines[i].col)
      && |lines[i].dists| == DIRCOUNT
      && forall j :: 0 <= j < DIRCOUNT ==>
           lines[i].dists[j] == JumpDist(g, lines[i].row, lines[i].col, AllDirs()[j])
    ensures LinesBounded(g.width, g.height, lines)
  {
    forall i, j | 0 <= i < |lines| && 0 <= j < DIRCOUNT
      ensures Abs(lines[i].dists[j]) <= Room(g.width, g.height, lines[i].row, lines[i].col, AllDirs()[j])
    {
      JumpDistBound(g, lines[i].row, lines[i].col, AllDirs()[j]);
    }
  }

  /** The entry for (r, c, d) after reading `lines` over a table that held
      `initial` there: the last line for the cell wins. */
  function Declared(lines: seq<DistanceLine>, r: int, c: int, d: Dir, initial: int): int
    requires forall i :: 0 <= i < |lines| ==> |lines[i].dists| == DIRCOUNT
  {
    if |lines| == 0 then initial
    else
      var last := lines[|lines| - 1];
      if last.row == r && last.col == c then last.dists[Position(d)]
      else Declared(lines[..|lines| - 1], r, c, d, initial)
  }

  /** A cell's entry comes from its last line. */
  lemma {:induction false} DeclaredByLastLine(lines: seq<DistanceLine>, i: int, d: Dir, initial: int)
    requires forall i :: 0 <= i < |lines| ==> |lines[i].dists| == DIRCOUNT
    requires 0 <= i < |lines|
    requires forall i' :: i < i' < |lines| ==> lines[i'].row != lines[i].row || lines[i'].col != lines[i].col
    ensures Declared(lines, lines[i].row, lines[i].col, d, initial) == lines[i].dists[Position(d)]
    decreases |lines|
  {
    if i < |lines| - 1 {
      DeclaredByLastLine(lines[..|lines| - 1], i, d, initial);
    }
  }

  /** A cell no line names keeps its entry. */
  lemma {:induction false} DeclaredUnlisted(lines: seq<DistanceLine>, r: int, c: int, d: Dir, initial: int)
    requires forall i :: 0 <= i < |lines| ==> |lines[i].dists| == DIRCOUNT
    requires forall i :: 0 <= i < |lines| ==> lines[i].row != r || lines[i].col != c
    ensures Declared(lines, r, c, d, initial) == initial
    decreases |lines|
  {
    if |lines| > 0 {
      DeclaredUnlisted(lines[..|lines| - 1], r, c, d, initial);
    }
  }

  /** Bounded lines over a bounded entry leave a bounded entry. */
  lemma {:induction false} DeclaredBounded(width: int, height: int, lines: seq<DistanceLine>, r: int, c: int, d: Dir, initial: int)
    requires LinesBounded(width, height, lines) && InBounds(width, height, r, c)
    requires Abs(initial) <= Room(width, height, r, c, d)
    ensures Abs(Declared(lines, r, c, d, initial)) <= Room(width, height, r, c, d)
    decreases |lines|
  {
    if |lines| > 0 {
      var last := lines[|lines| - 1];
      if last.row == r && last.col == c {
        assert AllDirs()[Position(d)] == d;
      } else {
        DeclaredBounded(width, height, lines[..|lines| - 1], r, c, d, initial);
      }
    }
  }

  /** `top` of the priority queue: an entry with the least sort key (the
      node order is reversed, so the top is a minimum); which one among
      equal keys is left open. */
  method Top(queue: seq<Node>) returns (i: nat)
    requires |queue| > 0
    ensures i < |queue|
    ensures forall j :: 0 <= j < |queue| ==> queue[i].sortCost <= queue[j].sortCost
  {
    i := 0;
    for j := 1 to |queue|
      invariant i < j
      invariant forall k :: 0 <= k < j ==> queue[i].sortCost <= queue[k].sortCost
    {
      if queue[j].sortCost < queue[i].sortCost {
        i := j;
      }
    }
  }

  /** The cells of the printed lines. */
  ghost function Cells(trace: seq<Visit>): set<(int, int)>
    decreases |trace|
  {
    if |trace| == 0 then {}
    else Cells(trace[..|trace| - 1]) + {(trace[|trace| - 1].row, trace[|trace| - 1].col)}
  }

  /** Every line's cell is among the printed ones. */
  lemma {:induction false} CellsListed(trace: seq<Visit>)
    ensures forall i :: 0 <= i < |trace| ==> (trace[i].row, trace[i].col) in Cells(trace)
    decreases |trace|
  {
    if |trace| > 0 {
      var prefix := trace[..|trace| - 1];
      CellsListed(prefix);
      forall i | 0 <= i < |prefix| ensures prefix[i] == trace[i] { }
    }
  }

  /** Only the lines' cells are among the printed ones. */
  lemma {:induction false} CellsOnlyListed(trace: seq<Visit>, x: (int, int))
    requires x in Cells(trace)
    ensures exists i :: 0 <= i < |trace| && x == (trace[i].row, trace[i].col)
    decreases |trace|
  {
    var n := |trace| - 1;
    if x != (trace[n].row, trace[n].col) {
      var prefix := trace[..n];
      CellsOnlyListed(prefix, x);
      var i :| 0 <= i < |prefix| && x == (prefix[i].row, prefix[i].col);
      assert prefix[i] == trace[i];
    }
  }

  /** Every cell of the fixed-size arrays. */
  ghost function Board(): set<(int, int)>
  {
    set r, c | 0 <= r < MAPSIZE && 0 <= c < MAPSIZE :: (r, c)
  }

  /** Printing a cell of the arrays not printed before leaves fewer cells
      unprinted. */
  lemma Unprinted(trace: seq<Visit>, v: Visit)
    requires 0 <= v.row < MAPSIZE && 0 <= v.col < MAPSIZE && (v.row, v.col) !in Cells(trace)
    requires Cells(trace + [v]) == Cells(trace) + {(v.row, v.col)}
    ensures Board() - Cells(trace + [v]) < Board() - Cells(trace)
  {
    assert (v.row, v.col) in (Board() - Cells(trace)) - (Board() - Cells(trace + [v]));
  }

  /** Appending a line adds its cell. */
  lemma CellsAppend(trace: seq<Visit>, v: Visit)
    ensures Cells(trace + [v]) == Cells(trace) + {(v.row, v.col)}
  {
    assert (trace + [v])[..|trace|] == trace;
  }


  /** The cost printed for cell (r, c): that of the last line naming it. */
  ghost function PrintedCost(trace: seq<Visit>, r: int, c: int): Cost
    decreases |trace|
  {
    if |trace| == 0 then Cost(0, 0)
    else
      var last := trace[|trace| - 1];
      if last.row == r && last.col == c then last.dist else PrintedCost(trace[..|trace| - 1], r, c)
  }

  /** Appending a line changes the printed cost of its own cell only. */
  lemma PrintedCostAppend(trace: seq<Visit>, v: Visit, r: int, c: int)
    ensures PrintedCost(trace + [v], r, c) == if v.row == r && v.col == c then v.dist else PrintedCost(trace, r, c)
  {
    assert (trace + [v])[..|trace|] == trace;
  }

  /** A prefix of a prefix is a prefix, line by line. */
  lemma PrefixOfPrefix(trace: seq<Visit>, n: int, i: int)
    requires 0 <= i < n <= |trace|
    ensures trace[..n][i] == trace[i] && trace[..n][..i] == trace[..i]
  {
  }

  /** A line whose cell is not printed again gives that cell's printed cost. */
  lemma {:induction false} PrintedCostOf(trace: seq<Visit>, k: int)
    requires 0 <= k < |trace|
    requires forall k' :: k < k' < |trace| ==> trace[k'].row != trace[k].row || trace[k'].col != trace[k].col
    ensures PrintedCost(trace, trace[k].row, trace[k].col) == trace[k].dist
    decreases |trace|
  {
    if k < |trace| - 1 {
      PrintedCostOf(trace[..|trace| - 1], k);
    }
  }

  /** Taking entry `i` off the queue keeps every other entry. */
  lemma RemoveKeeps(queue: seq<Node>, i: int, q: Node)
    requires 0 <= i < |queue| && q in queue && q != queue[i]
    ensures q in queue[..i] + queue[i + 1..]
  {
    var k :| 0 <= k < |queue| && queue[k] == q;
    if k < i {
      assert (queue[..i] + queue[i + 1..])[k] == q;
    } else {
      assert (queue[..i] + queue[i + 1..])[k - 1] == q;
    }
  }

  /** An entry of a suffix of the queue sits before or after any later
      cut point. */
  lemma SuffixSplit(queue: seq<Node>, a: int, b: int, q: Node)
    requires 0 <= a <= b <= |queue| && q in queue[a..]
    ensures q in queue[a..b] || q in queue[b..]
  {
    var k :| 0 <= k < |queue[a..]| && queue[a..][k] == q;
    if a + k < b {
      assert queue[a..b][k] == q;
    } else {
      assert queue[b..][a + k - b] == q;
    }
  }

  /** A jump of `k` steps along `d` from (r, c) to (r', c') shifts the gaps
      (gapRow, gapCol) to the goal at (goalRow, goalCol) back by the same
      steps, to (gapRow', gapCol'). */
  lemma JumpGaps(goalRow: int, goalCol: int, r: int, c: int, d: Dir, k: int, r': int, c': int,
                 gapRow: int, gapCol: int, gapRow': int, gapCol': int)
    requires OnRay(r, c, d, k, r', c')
    requires gapRow == goalRow - r && gapCol == goalCol - c && gapRow' == goalRow - r' && gapCol' == goalCol - c'
    ensures k >= 1 && gapRow == Shift(gapRow', DRow(d), k) && gapCol == Shift(gapCol', DCol(d), k)
  {
  }

  /** A jump of `k` steps along `d` turns the gaps to the goal from
      (gapRow, gapCol), estimated `before`, into (gapRow', gapCol'), estimated
      `after`: a key made of the cost `from` before the jump plus the jump's
      cost plus `after` is at least `from` plus `before`. */
  lemma KeyRises(gapRow: int, gapCol: int, d: Dir, k: int, gapRow': int, gapCol': int,
                 before: real, after: real, from: real, key: real)
    requires k >= 1 && gapRow == Shift(gapRow', DRow(d), k) && gapCol == Shift(gapCol', DCol(d), k)
    requires before == Estimate(gapRow, gapCol) && after == Estimate(gapRow', gapCol')
    requires key - after == from + Value(JumpCost(d, k))
    ensures from + before <= key
  {
    HeuristicConsistent(gapRow, gapCol, d, k, gapRow', gapCol');
  }

  /** Every entry of `queue` is keyed at least `bound`. */
  ghost predicate Above(queue: seq<Node>, bound: real)
  {
    forall k :: 0 <= k < |queue| ==> bound <= queue[k].sortCost
  }

  /** Taking an entry off the queue keeps a lower bound on the keys. */
  lemma AboveRest(queue: seq<Node>, i: int, bound: real)
    requires 0 <= i < |queue| && Above(queue, bound)
    ensures Above(queue[..i] + queue[i + 1..], bound)
  {
    var rest := queue[..i] + queue[i + 1..];
    forall k | 0 <= k < |rest| ensures bound <= rest[k].sortCost {
      if k < i {
        assert rest[k] == queue[k];
      } else {
        assert rest[k] == queue[k + 1];
      }
    }
  }

  /** An entry of a later suffix of the queue is in every earlier one. */
  lemma SuffixWithin(queue: seq<Node>, a: int, b: int, q: Node)
    requires 0 <= a <= b <= |queue| && q in queue[b..]
    ensures q in queue[a..]
  {
    var k :| 0 <= k < |queue[b..]| && queue[b..][k] == q;
    assert queue[a..][b - a + k] == q;
  }

  /** A queue that extends `before` keeps every entry of each suffix of
      `before`. */
  lemma SuffixKept(queue: seq<Node>, before: seq<Node>, a: int, q: Node)
    requires 0 <= a <= |before| <= |queue| && queue[..|before|] == before && q in before[a..]
    ensures q in queue[a..]
  {
    var k :| 0 <= k < |before[a..]| && before[a..][k] == q;
    assert queue[..|before|][a + k] == q;
    assert queue[a..][k] == q;
  }

  class JPSPlus {
    var mapWidth: int
    var mapHeight: int
    var startRow: int
    var startCol: int
    var goalRow: int
    var goalCol: int
    var distances: array3<int>
    var visited: array2<bool>
    var distanceToGoal: array2<Best>

    ghost predicate Valid()
      reads this
    {
      && distances.Length0 == MAPSIZE && distances.Length1 == MAPSIZE && distances.Length2 == DIRCOUNT
      && visited.Length0 == MAPSIZE && visited.Length1 == MAPSIZE
      && distanceToGoal.Length0 == MAPSIZE && distanceToGoal.Length1 == MAPSIZE
      && 0 <= mapWidth <= MAPSIZE && 0 <= mapHeight <= MAPSIZE
    }

    /** Every entry is zero. */
    ghost predicate TableClear()
      reads this, distances
      requires Valid()
    {
      forall r, c, k :: 0 <= r < MAPSIZE && 0 <= c < MAPSIZE && 0 <= k < DIRCOUNT ==> distances[r, c, k] == 0
    }

    /** No entry of a grid cell reaches farther than the grid allows. */
    ghost predicate TableBounded()
      reads this, distances
      requires Valid()
    {
      forall r, c, d :: InBounds(mapWidth, mapHeight, r, c) ==>
        Abs(distances[r, c, Index(d)]) <= Room(mapWidth, mapHeight, r, c, d)
    }

    constructor ()
      ensures Valid() && TableClear()
      ensures mapWidth == 0 && mapHeight == 0
      ensures fresh(distances) && fresh(visited) && fresh(distanceToGoal)
    {
      mapWidth, mapHeight := 0, 0;
      startRow, startCol, goalRow, goalCol := 0, 0, 0, 0;
      distances := new int[MAPSIZE, MAPSIZE, DIRCOUNT]((r, c, k) => 0);
      visited := new bool[MAPSIZE, MAPSIZE];
      distanceToGoal := new Best[MAPSIZE, MAPSIZE]((r, c) => Infinite);
    }
    /** `read`: the dimensions, start and goal, then one line per declared
        cell whose eight entries fill the cell's slots in `AllDirs()` order
        (the scalar fields are set last here, which changes nothing). */
    method Read(width: int, height: int, sRow: int, sCol: int, gRow: int, gCol: int, lines: seq<DistanceLine>)
      requires Valid()
      requires 0 <= width <= MAPSIZE && 0 <= height <= MAPSIZE
      requires forall i :: 0 <= i < |lines| ==>
        0 <= lines[i].row < MAPSIZE && 0 <= lines[i].col < MAPSIZE && |lines[i].dists| == DIRCOUNT
      modifies this`mapWidth, this`mapHeight, this`startRow, this`startCol, this`goalRow, this`goalCol, distances
      ensures Valid()
      ensures mapWidth == width && mapHeight == height
      ensures startRow == sRow && startCol == sCol && goalRow == gRow && goalCol == gCol
      ensures forall r, c, d :: 0 <= r < MAPSIZE && 0 <= c < MAPSIZE ==>
        distances[r, c, Index(d)] == Declared(lines, r, c, d, old(distances[r, c, Index(d)]))
      ensures old(TableClear()) && LinesBounded(width, height, lines) ==> TableBounded()
    {
      for i := 0 to |lines|
        invariant forall r, c, d :: 0 <= r < MAPSIZE && 0 <= c < MAPSIZE ==>
          distances[r, c, Index(d)] == Declared(lines[..i], r, c, d, old(distances[r, c, Index(d)]))
      {
        var line := lines[i];
        for j := 0 to DIRCOUNT
          invariant forall r, c, d :: 0 <= r < MAPSIZE && 0 <= c < MAPSIZE ==>
            distances[r, c, Index(d)] ==
              if r == line.row && c == line.col && Position(d) < j then line.dists[Position(d)]
              else Declared(lines[..i], r, c, d, old(distances[r, c, Index(d)]))
        {
          distances[line.row, line.col, Index(AllDirs()[j])] := line.dists[j];
        }
        assert lines[..i + 1][..i] == lines[..i];
      }
      assert lines[..|lines|] == lines;
      mapWidth, mapHeight := width, height;
      startCol, startRow := sCol, sRow;
      goalCol, goalRow := gCol, gRow;
      if old(TableClear()) && LinesBounded(width, height, lines) {
        forall r, c, d | InBounds(mapWidth, mapHeight, r, c)
          ensures Abs(distances[r, c, Index(d)]) <= Room(mapWidth, mapHeight, r, c, d)
        {
          DeclaredBounded(width, height, lines, r, c, d, 0);
        }
      }
    }

    /** `heuristic`: the octile distance to the goal, computed as in the
        source as max + min * (SQRT2 - 1); it is never negative. */
    function Heuristic(row: int, col: int): (h: real)
      reads this
      ensures h >= 0.0
    {
      var dr, dc := Abs(row - goalRow), Abs(col - goalCol);
      Max(dr, dc) as real + Min(dr, dc) as real * (SQRT2 - 1.0)
    }

    /** The heuristic is the octile estimate of the gaps (gapRow, gapCol)
        from (row, col) to the goal. */
    lemma HeuristicOctile(row: int, col: int, gapRow: int, gapCol: int)
      requires gapRow == goalRow - row && gapCol == goalCol - col
      ensures Heuristic(row, col) == Estimate(gapRow, gapCol)
    {
    }

    /** The JPS+ rule takes the search from (pr, pc) along `d` to (r, c),
        given the entry stored for (pr, pc, d). */
    ghost predicate Generates(pr: int, pc: int, d: Dir, r: int, c: int)
      reads this, distances
      requires Valid()
    {
      && 0 <= pr < MAPSIZE && 0 <= pc < MAPSIZE
      && var j := Successor(pr, pc, goalRow, goalCol, d, distances[pr, pc, Index(d)]);
         j.Some? && j.value.row == r && j.value.col == c
    }

    /** The JPS+ rule takes the search from (pr, pc) along `d` to (r, c), and
        a path cost `from` at (pr, pc) becomes `cost` there. */
    ghost predicate Jumps(pr: int, pc: int, d: Dir, r: int, c: int, from: Cost, cost: real)
      reads this, distances
      requires Valid()
    {
      && Generates(pr, pc, d, r, c)
      && cost == Value(Add(from, JumpCost(d, Successor(pr, pc, goalRow, goalCol, d, distances[pr, pc, Index(d)]).value.steps)))
    }

    /** Queue entries name grid cells whose best known cost is finite and,
        with the estimate added, no greater than the entry's key. */
    ghost predicate QueueReady(openList: seq<Node>)
      reads this, distanceToGoal
      requires Valid()
    {
      forall q :: q in openList ==>
        && InBounds(mapWidth, mapHeight, q.row, q.col) && distanceToGoal[q.row, q.col].Finite?
        && Value(distanceToGoal[q.row, q.col].cost) + Heuristic(q.row, q.col) <= q.sortCost
    }

    /** `q` is an entry of `openList` for (r, c) keyed by the cell's best
        known cost plus the estimate. */
    ghost predicate Keyed(q: Node, openList: seq<Node>, r: int, c: int)
      reads this, distanceToGoal
      requires Valid() && 0 <= r < MAPSIZE && 0 <= c < MAPSIZE
    {
      && q in openList && q.row == r && q.col == c && distanceToGoal[r, c].Finite?
      && q.sortCost == Value(distanceToGoal[r, c].cost) + Heuristic(r, c)
    }

    /** The best known cost of every cell of the arrays. */
    ghost function Costs(): (m: map<(int, int), Best>)
      reads this, distanceToGoal
      requires Valid()
      ensures forall r, c {:trigger m[(r, c)]} :: 0 <= r < MAPSIZE && 0 <= c < MAPSIZE ==> (r, c) in m && m[(r, c)] == distanceToGoal[r, c]
    {
      map p | p in Board() :: distanceToGoal[p.0, p.1]
    }

    /** The best known costs cover exactly the cells of the arrays. */
    lemma CostsDomain()
      requires Valid()
      ensures Costs().Keys == Board()
    {
    }

    /** No cell's cost rises from `before` to `after`: a finite cost stays
        finite and does not grow. */
    ghost predicate NoneRaised(before: map<(int, int), Best>, after: map<(int, int), Best>)
    {
      forall p :: p in before && p in after && before[p].Finite? ==>
        after[p].Finite? && Value(after[p].cost) <= Value(before[p].cost)
    }

    /** The cost of cell `p` differs from `before` to `after`. */
    ghost predicate Moved(before: map<(int, int), Best>, after: map<(int, int), Best>, p: (int, int))
    {
      p in before && p in after && before[p] != after[p]
    }

    /** `q` is an entry of `entries` for cell `p` keyed by the finite cost
        `best` plus the estimate. */
    ghost predicate KeyedBy(q: Node, entries: seq<Node>, p: (int, int), best: Best)
      reads this
    {
      q in entries && q.row == p.0 && q.col == p.1 && best.Finite? && q.sortCost == Value(best.cost) + Heuristic(p.0, p.1)
    }

    /** Every cell whose best known cost differs from `before` to `after` has
        an entry of `entries` keyed by its cost in `after`: best known costs
        change only together with a push. */
    ghost predicate Recorded(before: map<(int, int), Best>, after: map<(int, int), Best>, entries: seq<Node>)
      reads this
    {
      forall p {:trigger Moved(before, after, p)} :: Moved(before, after, p) ==> exists q :: KeyedBy(q, entries, p, after[p])
    }

    /** Setting one cell's cost is recorded by an entry keyed by it. */
    lemma RecordedUpdate(before: map<(int, int), Best>, cell: (int, int), best: Best, entries: seq<Node>, q: Node)
      requires KeyedBy(q, entries, cell, best)
      ensures Recorded(before, before[cell := best], entries)
    {
      var after := before[cell := best];
      forall p | Moved(before, after, p)
        ensures exists q' :: KeyedBy(q', entries, p, after[p])
      {
        assert p == cell;
        assert KeyedBy(q, entries, p, after[p]);
      }
    }

    /** Setting one cell's cost to one no higher keeps every cost from
        rising. */
    lemma NoneRaisedUpdate(before: map<(int, int), Best>, cell: (int, int), best: Best)
      requires cell in before && best.Finite?
      requires before[cell].Finite? ==> Value(best.cost) <= Value(before[cell].cost)
      ensures NoneRaised(before, before[cell := best])
    {
    }

    /** Costs that do not rise in two steps do not rise across both. */
    lemma NoneRaisedChain(start: map<(int, int), Best>, mid: map<(int, int), Best>, now: map<(int, int), Best>)
      requires start.Keys == mid.Keys == now.Keys
      requires NoneRaised(start, mid) && NoneRaised(mid, now)
      ensures NoneRaised(start, now)
    {
    }

    /** Two successive stretches of pushes, the second appended to the
        queue the first left, record every change of their sum. */
    lemma {:induction false} RecordedChain(start: map<(int, int), Best>, mid: map<(int, int), Best>, now: map<(int, int), Best>,
                                           queue: seq<Node>, before: seq<Node>, base: int)
      requires 0 <= base <= |before| <= |queue| && queue[..|before|] == before
      requires start.Keys == mid.Keys == now.Keys
      requires Recorded(start, mid, before[base..]) && Recorded(mid, now, queue[|before|..])
      ensures Recorded(start, now, queue[base..])
    {
      forall p | Moved(start, now, p)
        ensures exists q :: KeyedBy(q, queue[base..], p, now[p])
      {
        if Moved(mid, now, p) {
          var q :| KeyedBy(q, queue[|before|..], p, now[p]);
          SuffixWithin(queue, base, |before|, q);
          assert KeyedBy(q, queue[base..], p, now[p]);
        } else {
          assert Moved(start, mid, p);
          var q :| KeyedBy(q, before[base..], p, mid[p]);
          SuffixKept(queue, before, base, q);
          assert KeyedBy(q, queue[base..], p, now[p]);
        }
      }
    }

    /** (r, c) is a grid cell outside `done` with a finite best known cost. */
    ghost predicate Open(r: int, c: int, done: set<(int, int)>)
      reads this, distanceToGoal
      requires Valid()
    {
      InBounds(mapWidth, mapHeight, r, c) && (r, c) !in done && distanceToGoal[r, c].Finite?
    }

    /** Every grid cell outside `done` with a finite best known cost has a
        queue entry keyed by that cost plus the estimate. */
    ghost predicate Frontier(openList: seq<Node>, done: set<(int, int)>)
      reads this, distanceToGoal
      requires Valid()
    {
      forall r, c :: Open(r, c, done) ==> exists q :: Keyed(q, openList, r, c)
    }

    /** Queue entries were pushed by an expanded cell, along a direction whose
        JPS+ successor they are, with the key the parent's printed cost plus
        the jump plus the estimate. */
    ghost predicate QueueLinked(openList: seq<Node>, trace: seq<Visit>)
      reads this, distances
      requires Valid()
    {
      forall q {:trigger Queued(q, openList)} :: Queued(q, openList) ==> EntryLinked(q, trace)
    }

    /** Membership in the open list, named so that the link of an entry is
        looked at only for the entries a proof names. */
    ghost predicate Queued(q: Node, openList: seq<Node>)
    {
      q in openList
    }

    /** The entry `q` was pushed by a printed parent along a valid jump, and
        its key minus its heuristic is the parent's printed cost plus the
        jump's cost. */
    ghost predicate EntryLinked(q: Node, trace: seq<Visit>)
      reads this, distances
      requires Valid()
    {
      && q.dir.Toward?
      && (q.prow, q.pcol) in Cells(trace)
      && Jumps(q.prow, q.pcol, q.dir.dir, q.row, q.col, PrintedCost(trace, q.prow, q.pcol), q.sortCost - Heuristic(q.row, q.col))
    }

    /** `v` names a parent printed in `prefix` that generates it, and its
        cost is the parent's printed cost plus the jump. */
    ghost predicate Linked(v: Visit, prefix: seq<Visit>)
      reads this, distances
      requires Valid()
    {
      && (v.prow, v.pcol) in Cells(prefix)
      && exists d :: Jumps(v.prow, v.pcol, d, v.row, v.col, PrintedCost(prefix, v.prow, v.pcol), Value(v.dist))
    }

    /** The printed lines so far, line by line: the start first with parent
        (-1, -1) and cost 0, then cells on the grid not printed before, each
        linked to a printed parent. */
    ghost predicate TraceOk(trace: seq<Visit>)
      reads this, distances
      requires Valid()
    {
      forall i {:trigger LineOk(trace, i)} :: 0 <= i < |trace| ==> LineOk(trace, i)
    }

    /** Line `i` of `trace` is well formed with respect to the lines before
        it. */
    ghost predicate LineOk(trace: seq<Visit>, i: int)
      reads this, distances
      requires Valid() && 0 <= i < |trace|
    {
      var v, prefix := trace[i], trace[..i];
      && InBounds(mapWidth, mapHeight, v.row, v.col)
      && (v.row, v.col) !in Cells(prefix)
      && if i == 0 then v == Visit(startCol, startRow, -1, -1, Cost(0, 0)) else Linked(v, prefix)
    }

    /** Every line of a well-formed trace is on the grid, and the start
        comes first. */
    lemma TraceOnGrid(trace: seq<Visit>)
      requires Valid() && TraceOk(trace)
      ensures |trace| > 0 ==> trace[0] == Visit(startCol, startRow, -1, -1, Cost(0, 0))
      ensures forall i :: 0 <= i < |trace| ==> InBounds(mapWidth, mapHeight, trace[i].row, trace[i].col)
    {
      if |trace| > 0 {
        assert LineOk(trace, 0);
      }
      forall i | 0 <= i < |trace| ensures InBounds(mapWidth, mapHeight, trace[i].row, trace[i].col) {
        assert LineOk(trace, i);
      }
    }

    /** No cell is printed twice in a well-formed trace. */
    lemma TraceDistinct(trace: seq<Visit>)
      requires Valid() && TraceOk(trace)
      ensures forall i, i' :: 0 <= i < i' < |trace| ==>
        trace[i].row != trace[i'].row || trace[i].col != trace[i'].col
    {
      forall i, i' | 0 <= i < i' < |trace|
        ensures trace[i].row != trace[i'].row || trace[i].col != trace[i'].col
      {
        assert LineOk(trace, i');
        CellsListed(trace[..i']);
        assert trace[..i'][i] == trace[i];
      }
    }

    /** Every later line of a well-formed trace is linked to the lines
        before it. */
    lemma TraceLinked(trace: seq<Visit>)
      requires Valid() && TraceOk(trace)
      ensures forall i :: 0 < i < |trace| ==> Linked(trace[i], trace[..i])
    {
      forall i | 0 < i < |trace| ensures Linked(trace[i], trace[..i]) {
        assert LineOk(trace, i);
      }
    }

    /** Each printed cost after the start is the printed cost of the parent's
        earlier line plus the cost of the jump that generated the cell. */
    lemma TraceCosts(trace: seq<Visit>, i: int)
      requires Valid() && TraceOk(trace) && 0 < i < |trace|
      ensures exists k, d :: (0 <= k < i && trace[k].row == trace[i].prow && trace[k].col == trace[i].pcol
        && Jumps(trace[i].prow, trace[i].pcol, d, trace[i].row, trace[i].col, trace[k].dist, Value(trace[i].dist)))
    {
      TraceLinked(trace);
      TraceDistinct(trace);
      var prefix, v := trace[..i], trace[i];
      assert Linked(v, prefix);
      CellsOnlyListed(prefix, (v.prow, v.pcol));
      var k :| 0 <= k < |prefix| && (v.prow, v.pcol) == (prefix[k].row, prefix[k].col);
      forall k' | k < k' < |prefix| ensures prefix[k'].row != prefix[k].row || prefix[k'].col != prefix[k].col {
        assert prefix[k] == trace[k] && prefix[k'] == trace[k'];
      }
      PrintedCostOf(prefix, k);
      var d :| Jumps(v.prow, v.pcol, d, v.row, v.col, PrintedCost(prefix, v.prow, v.pcol), Value(v.dist));
      assert prefix[k] == trace[k];
    }

    /** `visited` marks exactly the printed cells. */
    ghost predicate VisitedMatches(trace: seq<Visit>)
      reads this, visited
      requires Valid()
    {
      forall r, c :: 0 <= r < MAPSIZE && 0 <= c < MAPSIZE ==> (visited[r, c] <==> (r, c) in Cells(trace))
    }

    /** `arrivals[i]` is the direction the i-th printed cell was reached by:
        NONE for the start, otherwise a direction along which its parent
        generates it. */
    ghost predicate ArrivalsMatch(trace: seq<Visit>, arrivals: seq<Arrival>)
      reads this, distances
      requires Valid()
    {
      && |arrivals| == |trace|
      && (|trace| > 0 ==> arrivals[0] == NONE)
      && forall i :: 0 < i < |trace| ==> ArrivedBy(trace, arrivals, i)
    }

    /** Line `i` was reached from its parent along `arrivals[i]`. */
    ghost predicate ArrivedBy(trace: seq<Visit>, arrivals: seq<Arrival>, i: int)
      reads this, distances
      requires Valid() && 0 <= i < |trace| && |arrivals| == |trace|
    {
      arrivals[i].Toward? && Generates(trace[i].prow, trace[i].pcol, arrivals[i].dir, trace[i].row, trace[i].col)
    }

    /** Printing the line of a cell reached by `a` extends the arrivals. */
    lemma ArrivalsExtend(trace: seq<Visit>, arrivals: seq<Arrival>, v: Visit, a: Arrival)
      requires Valid() && ArrivalsMatch(trace, arrivals)
      requires |trace| == 0 ==> a == NONE
      requires |trace| > 0 ==> a.Toward? && Generates(v.prow, v.pcol, a.dir, v.row, v.col)
      ensures ArrivalsMatch(trace + [v], arrivals + [a])
    {
      forall i | 0 < i < |trace| + 1 ensures ArrivedBy(trace + [v], arrivals + [a], i) {
        if i < |trace| {
          assert ArrivedBy(trace, arrivals, i);
          assert (arrivals + [a])[i] == arrivals[i] && (trace + [v])[i] == trace[i];
        }
      }
    }

    /** Printing another cell keeps queue entries linked to printed parents,
        with the same printed costs. */
    lemma QueueLinkedGrows(openList: seq<Node>, trace: seq<Visit>, v: Visit)
      requires Valid() && (|trace| > 0 ==> QueueLinked(openList, trace))
      requires |trace| == 0 ==> openList == []
      requires (v.row, v.col) !in Cells(trace)
      ensures QueueLinked(openList, trace + [v])
    {
      CellsAppend(trace, v);
      forall q | Queued(q, openList)
        ensures EntryLinked(q, trace + [v])
      {
        assert EntryLinked(q, trace);
        PrintedCostAppend(trace, v, q.prow, q.pcol);
      }
    }

    /** Printing a new cell generated from a printed one, at the parent's
        printed cost plus the jump, keeps the trace well formed. */
    lemma TraceExtend(trace: seq<Visit>, v: Visit, d: Dir)
      requires Valid() && TraceOk(trace)
      requires InBounds(mapWidth, mapHeight, v.row, v.col) && (v.row, v.col) !in Cells(trace)
      requires |trace| == 0 ==> v == Visit(startCol, startRow, -1, -1, Cost(0, 0))
      requires |trace| > 0 ==>
        && (v.prow, v.pcol) in Cells(trace)
        && Jumps(v.prow, v.pcol, d, v.row, v.col, PrintedCost(trace, v.prow, v.pcol), Value(v.dist))
      ensures TraceOk(trace + [v])
    {
      var n := |trace|;
      forall i | 0 <= i < n + 1 ensures LineOk(trace + [v], i) {
        if i < n {
          PrefixOfPrefix(trace + [v], n, i);
          assert (trace + [v])[..n] == trace;
          assert LineOk(trace, i);
        } else {
          assert (trace + [v])[..n] == trace;
        }
      }
    }

    /** Printing the next cell: the trace stays well formed, its cells grow
        by that one cell, and the queue stays linked to printed parents. */
    lemma Advance(trace: seq<Visit>, openList: seq<Node>, v: Visit, d: Dir)
      requires Valid() && TraceOk(trace)
      requires InBounds(mapWidth, mapHeight, v.row, v.col) && (v.row, v.col) !in Cells(trace)
      requires |trace| == 0 ==> v == Visit(startCol, startRow, -1, -1, Cost(0, 0)) && openList == []
      requires |trace| > 0 ==>
        && (v.prow, v.pcol) in Cells(trace)
        && Jumps(v.prow, v.pcol, d, v.row, v.col, PrintedCost(trace, v.prow, v.pcol), Value(v.dist))
        && QueueLinked(openList, trace)
      ensures TraceOk(trace + [v]) && QueueLinked(openList, trace + [v])
      ensures Cells(trace + [v]) == Cells(trace) + {(v.row, v.col)}
    {
      TraceExtend(trace, v, d);
      QueueLinkedGrows(openList, trace, v);
      CellsAppend(trace, v);
    }

    /** The start of `run`: no cell is expanded, and every cell of the map's
        rows (all columns of the fixed-size array) has no known cost. */
    method ResetSearch()
      requires Valid()
      modifies visited, distanceToGoal
      ensures forall r, c :: 0 <= r < MAPSIZE && 0 <= c < MAPSIZE ==> !visited[r, c]
      ensures forall r, c :: 0 <= r < MAPSIZE && 0 <= c < MAPSIZE ==>
        distanceToGoal[r, c] == if r < mapHeight then Infinite else old(distanceToGoal[r, c])
    {
      forall r, c | 0 <= r < MAPSIZE && 0 <= c < MAPSIZE {
        visited[r, c] := false;
      }
      forall r, c | 0 <= r < mapHeight && 0 <= c < MAPSIZE {
        distanceToGoal[r, c] := Infinite;
      }
    }

    /** The first lines of `run`: clear the marks and costs, give the start
        cost 0 and queue it alone, keyed by its estimate. */
    method Begin() returns (openList: seq<Node>)
      requires Valid() && InBounds(mapWidth, mapHeight, startRow, startCol)
      modifies visited, distanceToGoal
      ensures openList == [Node(startRow, startCol, -1, -1, NONE, Heuristic(startRow, startCol))]
      ensures Searching(openList, [], [])
    {
      ResetSearch();
      var start := Node(startRow, startCol, -1, -1, NONE, Heuristic(startRow, startCol));
      distanceToGoal[startRow, startCol] := Finite(Cost(0, 0));
      openList := [start];
      forall r, c | Open(r, c, Cells([])) ensures exists q :: Keyed(q, openList, r, c) {
        assert Keyed(start, openList, r, c);
      }
    }

    /** Marks the cell of `line` expanded: the marks then match the trace
        extended by `line`. */
    method MarkVisited(ghost trace: seq<Visit>, line: Visit)
      requires Valid() && VisitedMatches(trace)
      requires 0 <= line.row < MAPSIZE && 0 <= line.col < MAPSIZE && !visited[line.row, line.col]
      modifies visited
      ensures VisitedMatches(trace + [line])
      ensures forall r, c :: 0 <= r < MAPSIZE && 0 <= c < MAPSIZE ==>
        visited[r, c] == (old(visited[r, c]) || (r == line.row && c == line.col))
    {
      visited[line.row, line.col] := true;
      CellsAppend(trace, line);
    }

    /** Expanding `cur`, taken off the queue and not yet expanded: mark it
        visited and print its line with its best known cost, which is the
        parent's printed cost plus the jump. */
    method Settle(cur: Node, openList: seq<Node>, ghost trace: seq<Visit>) returns (line: Visit)
      requires Valid() && TraceOk(trace) && VisitedMatches(trace)
      requires InBounds(mapWidth, mapHeight, cur.row, cur.col) && !visited[cur.row, cur.col]
      requires distanceToGoal[cur.row, cur.col].Finite?
      requires cur.sortCost == Value(distanceToGoal[cur.row, cur.col].cost) + Heuristic(cur.row, cur.col)
      requires |trace| == 0 ==>
        cur.row == startRow && cur.col == startCol && cur.prow == -1 && cur.pcol == -1
        && distanceToGoal[cur.row, cur.col] == Finite(Cost(0, 0)) && openList == []
      requires |trace| > 0 ==>
        && cur.dir.Toward? && (cur.prow, cur.pcol) in Cells(trace)
        && Jumps(cur.prow, cur.pcol, cur.dir.dir, cur.row, cur.col,
                 PrintedCost(trace, cur.prow, cur.pcol), Value(distanceToGoal[cur.row, cur.col].cost))
        && QueueLinked(openList, trace)
      modifies visited
      ensures line == Visit(cur.col, cur.row, cur.pcol, cur.prow, distanceToGoal[cur.row, cur.col].cost)
      ensures Key(line) == cur.sortCost
      ensures VisitedMatches(trace + [line]) && TraceOk(trace + [line])
      ensures QueueLinked(openList, trace + [line])
      ensures Cells(trace + [line]) == Cells(trace) + {(cur.row, cur.col)}
    {
      line := Visit(cur.col, cur.row, cur.pcol, cur.prow, distanceToGoal[cur.row, cur.col].cost);
      MarkVisited(trace, line);
      Advance(trace, openList, line, if cur.dir.Toward? then cur.dir.dir else North);
    }

    /** Along `d`, the successor of (row, col), when there is one, has a
        best known cost no greater than `via` plus the cost of the jump. */
    ghost predicate RelaxedAlong(row: int, col: int, via: Cost, d: Dir)
      reads this, distances, distanceToGoal
      requires Valid()
    {
      && 0 <= row < MAPSIZE && 0 <= col < MAPSIZE
      && var j := Successor(row, col, goalRow, goalCol, d, distances[row, col, Index(d)]);
         (j.Some? && 0 <= j.value.row < MAPSIZE && 0 <= j.value.col < MAPSIZE ==>
            && distanceToGoal[j.value.row, j.value.col].Finite?
            && Value(distanceToGoal[j.value.row, j.value.col].cost) <= Value(Add(via, JumpCost(d, j.value.steps))))
    }

    /** The first |arrivals| printed cells are relaxed, from their printed
        cost, along every direction their arrival allows. */
    ghost predicate RelaxedAll(trace: seq<Visit>, arrivals: seq<Arrival>)
      reads this, distances, distanceToGoal
      requires Valid()
    {
      && |arrivals| <= |trace|
      && forall i :: 0 <= i < |arrivals| ==> RelaxedAt(trace, arrivals, i)
    }

    /** Printed cell `i` is relaxed, from its printed cost, along every
        direction its arrival allows. */
    ghost predicate RelaxedAt(trace: seq<Visit>, arrivals: seq<Arrival>, i: int)
      reads this, distances, distanceToGoal
      requires Valid() && 0 <= i < |arrivals| <= |trace|
    {
      forall d :: d in ValidDirections(arrivals[i]) ==> RelaxedAlong(trace[i].row, trace[i].col, trace[i].dist, d)
    }

    /** Printing another line keeps the relaxed cells relaxed. */
    lemma RelaxedAllAppend(trace: seq<Visit>, arrivals: seq<Arrival>, v: Visit)
      requires Valid() && RelaxedAll(trace, arrivals)
      ensures RelaxedAll(trace + [v], arrivals)
    {
      forall i | 0 <= i < |arrivals| ensures RelaxedAt(trace + [v], arrivals, i) {
        assert RelaxedAt(trace, arrivals, i);
        assert (trace + [v])[i] == trace[i];
      }
    }

    /** A cell relaxed along every direction its arrival allows joins the
        relaxed ones. */
    lemma RelaxedAllExtend(trace: seq<Visit>, arrivals: seq<Arrival>, a: Arrival)
      requires Valid() && RelaxedAll(trace, arrivals) && |arrivals| < |trace|
      requires forall d :: d in ValidDirections(a) ==>
        RelaxedAlong(trace[|arrivals|].row, trace[|arrivals|].col, trace[|arrivals|].dist, d)
      ensures RelaxedAll(trace, arrivals + [a])
    {
      forall i | 0 <= i < |arrivals| + 1 ensures RelaxedAt(trace, arrivals + [a], i) {
        if i < |arrivals| {
          assert RelaxedAt(trace, arrivals, i);
          assert (arrivals + [a])[i] == arrivals[i];
        }
      }
    }

    /** Every successor of a printed cell, along a direction its arrival
        allows, is printed too. */
    ghost predicate Closed(trace: seq<Visit>, arrivals: seq<Arrival>)
      reads this, distances
      requires Valid()
    {
      && |arrivals| == |trace|
      && forall i, d :: 0 <= i < |trace| && d in ValidDirections(arrivals[i]) ==> SuccessorPrinted(trace, i, d)
    }

    /** The successor of the i-th printed cell along `d`, if any, is printed. */
    ghost predicate SuccessorPrinted(trace: seq<Visit>, i: int, d: Dir)
      reads this, distances
      requires Valid() && 0 <= i < |trace|
    {
      && 0 <= trace[i].row < MAPSIZE && 0 <= trace[i].col < MAPSIZE
      && var j := Successor(trace[i].row, trace[i].col, goalRow, goalCol, d, distances[trace[i].row, trace[i].col, Index(d)]);
         j.Some? ==> (j.value.row, j.value.col) in Cells(trace)
    }

    /** `q` was pushed by expanding `cur` at cost `curDist`: it is the
        successor along one of the directions `cur`'s arrival allows, and its
        sort key is the cost through `cur` plus the estimate. */
    ghost predicate PushedFrom(q: Node, cur: Node, curDist: Cost)
      reads this, distances
      requires Valid()
    {
      && q.prow == cur.row && q.pcol == cur.col
      && q.dir.Toward? && q.dir.dir in ValidDirections(cur.dir)
      && Jumps(cur.row, cur.col, q.dir.dir, q.row, q.col, curDist, q.sortCost - Heuristic(q.row, q.col))
    }

    /** The key of `q` is below best cost `b` plus the estimate: the path
        through `q`'s parent improves on `b`. */
    ghost predicate Beats(q: Node, b: Best)
      reads this
    {
      b.Infinite? || q.sortCost < Value(b.cost) + Heuristic(q.row, q.col)
    }

    /** The cell of `q` has a best cost in `costs`, and `q` beats it. */
    ghost predicate BeatsIn(q: Node, costs: map<(int, int), Best>)
      reads this
    {
      (q.row, q.col) in costs && Beats(q, costs[(q.row, q.col)])
    }

    /** An entry that beats a best known cost beats every earlier, no
        lower, one. */
    lemma BeatsEarlier(q: Node, b: Best, b': Best)
      requires Beats(q, b) && (b'.Finite? ==> b.Finite? && Value(b.cost) <= Value(b'.cost))
      ensures Beats(q, b')
    {
    }

    /** An entry pushed from `cur` is keyed at least `cur`'s cost plus its
        estimate: the estimate falls by at most the cost of the jump. */
    lemma PushedAbove(q: Node, cur: Node, curDist: Cost)
      requires Valid() && PushedFrom(q, cur, curDist)
      ensures Value(curDist) + Heuristic(cur.row, cur.col) <= q.sortCost
    {
      var d := q.dir.dir;
      var j := Successor(cur.row, cur.col, goalRow, goalCol, d, distances[cur.row, cur.col, Index(d)]).value;
      assert q.row == j.row && q.col == j.col && OnRay(cur.row, cur.col, d, j.steps, q.row, q.col);
      HeuristicRises(cur.row, cur.col, d, j.steps, q.row, q.col, Value(curDist), q.sortCost);
    }

    /** Across a jump of `k` steps along `d` from (r, c) to (r', c'), a key
        made of the cost through the jump plus the estimate at its end is at
        least the cost before the jump plus the estimate at its start. */
    lemma HeuristicRises(r: int, c: int, d: Dir, k: int, r': int, c': int, from: real, key: real)
      requires OnRay(r, c, d, k, r', c') && key - Heuristic(r', c') == from + Value(JumpCost(d, k))
      ensures from + Heuristic(r, c) <= key
    {
      var gapRow, gapCol, gapRow', gapCol' := goalRow - r, goalCol - c, goalRow - r', goalCol - c';
      JumpGaps(goalRow, goalCol, r, c, d, k, r', c', gapRow, gapCol, gapRow', gapCol');
      HeuristicOctile(r, c, gapRow, gapCol);
      HeuristicOctile(r', c', gapRow', gapCol');
      KeyRises(gapRow, gapCol, d, k, gapRow', gapCol', Heuristic(r, c), Heuristic(r', c'), from, key);
    }

    /** Lower the best known cost of (r, c) to `cost`; every other cell keeps
        its best known cost, so the queue keeps its bounds, every other cell
        keeps its queue entry, and every relaxation done stays done. */
    method Lower(r: int, c: int, cost: Cost, openList: seq<Node>, ghost done: set<(int, int)>,
                 ghost trace: seq<Visit>, ghost arrivals: seq<Arrival>, row: int, col: int, via: Cost)
      requires Valid() && 0 <= r < MAPSIZE && 0 <= c < MAPSIZE
      requires Improves(cost, distanceToGoal[r, c]) && QueueReady(openList) && Frontier(openList, done)
      requires RelaxedAll(trace, arrivals)
      modifies distanceToGoal
      ensures distanceToGoal[r, c] == Finite(cost)
      ensures forall r', c' :: 0 <= r' < MAPSIZE && 0 <= c' < MAPSIZE && (r' != r || c' != c) ==>
        distanceToGoal[r', c'] == old(distanceToGoal[r', c'])
      ensures Costs() == old(Costs())[(r, c) := Finite(cost)]
      ensures QueueReady(openList) && Frontier(openList, done + {(r, c)}) && RelaxedAll(trace, arrivals)
      ensures forall d :: old(RelaxedAlong(row, col, via, d)) ==> RelaxedAlong(row, col, via, d)
    {
      distanceToGoal[r, c] := Finite(cost);
      forall r', c' | Open(r', c', done + {(r, c)})
        ensures exists q :: Keyed(q, openList, r', c')
      {
        assert old(Open(r', c', done));
        var q :| old(Keyed(q, openList, r', c'));
        assert Keyed(q, openList, r', c');
      }
      forall i | 0 <= i < |arrivals| ensures RelaxedAt(trace, arrivals, i) {
        assert old(RelaxedAt(trace, arrivals, i));
        forall d | d in ValidDirections(arrivals[i])
          ensures RelaxedAlong(trace[i].row, trace[i].col, trace[i].dist, d)
        {
          assert old(RelaxedAlong(trace[i].row, trace[i].col, trace[i].dist, d));
        }
      }
    }

    /** The queue entry for `next`, the successor of `cur` along `d`: its
        parent is `cur`, and its sort key is the cost through `cur` plus the
        estimate to the goal. */
    method NewEntry(cur: Node, curDist: Cost, d: Dir, next: Jump, openList: seq<Node>, ghost trace: seq<Visit>) returns (node: Node)
      requires Valid() && InBounds(mapWidth, mapHeight, cur.row, cur.col) && (cur.row, cur.col) in Cells(trace)
      requires PrintedCost(trace, cur.row, cur.col) == curDist
      requires d in ValidDirections(cur.dir)
      requires Successor(cur.row, cur.col, goalRow, goalCol, d, distances[cur.row, cur.col, Index(d)]) == Some(next)
      requires QueueLinked(openList, trace)
      ensures node.row == next.row && node.col == next.col && node.dir == Toward(d)
      ensures node.sortCost == Value(Add(curDist, JumpCost(d, next.steps))) + Heuristic(next.row, next.col)
      ensures PushedFrom(node, cur, curDist) && QueueLinked(openList + [node], trace)
    {
      var givenCost := Add(curDist, JumpCost(d, next.steps));
      node := Node(next.row, next.col, cur.row, cur.col, Toward(d),
                   Value(givenCost) + Heuristic(next.row, next.col));
      assert Generates(cur.row, cur.col, d, node.row, node.col);
      forall q | Queued(q, openList + [node])
        ensures EntryLinked(q, trace)
      {
        if q != node {
          assert Queued(q, openList);
        }
      }
    }

    /** The improving branch, once the best known cost of `next` has been
        lowered from `was` to the cost through `cur`: push the entry for
        `next`. The queue stays ready, linked and complete, and its one new
        entry, for `next`, was pushed from `cur` with a key below `was` plus
        the estimate. */
    method Push(cur: Node, curDist: Cost, d: Dir, next: Jump, openList: seq<Node>,
                ghost trace: seq<Visit>, ghost start: map<(int, int), Best>) returns (pushed: seq<Node>)
      requires Valid() && InBounds(mapWidth, mapHeight, cur.row, cur.col) && (cur.row, cur.col) in Cells(trace)
      requires PrintedCost(trace, cur.row, cur.col) == curDist
      requires d in ValidDirections(cur.dir) && InBounds(mapWidth, mapHeight, next.row, next.col)
      requires Successor(cur.row, cur.col, goalRow, goalCol, d, distances[cur.row, cur.col, Index(d)]) == Some(next)
      requires (next.row, next.col) in start && Improves(Add(curDist, JumpCost(d, next.steps)), start[(next.row, next.col)])
      requires distanceToGoal[next.row, next.col] == Finite(Add(curDist, JumpCost(d, next.steps)))
      requires QueueReady(openList) && QueueLinked(openList, trace)
      requires Frontier(openList, Cells(trace) + {(next.row, next.col)})
      ensures QueueReady(pushed) && QueueLinked(pushed, trace) && Frontier(pushed, Cells(trace))
      ensures |pushed| == |openList| + 1 && pushed[..|openList|] == openList
      ensures forall q :: Queued(q, pushed[|openList|..]) ==> PushedFrom(q, cur, curDist)
      ensures forall q :: Queued(q, pushed[|openList|..]) ==>
        q.row == next.row && q.col == next.col && BeatsIn(q, start)
      ensures Recorded(start, start[(next.row, next.col) := Finite(Add(curDist, JumpCost(d, next.steps)))], pushed[|openList|..])
      ensures NoneRaised(start, start[(next.row, next.col) := Finite(Add(curDist, JumpCost(d, next.steps)))])
    {
      var node := NewEntry(cur, curDist, d, next, openList, trace);
      pushed := openList + [node];
      assert pushed[|openList|..] == [node];
      FrontierPush(openList, node, Cells(trace));
      QueueReadyPush(openList, node);
      RecordedUpdate(start, (next.row, next.col), Finite(Add(curDist, JumpCost(d, next.steps))), pushed[|openList|..], node);
      NoneRaisedUpdate(start, (next.row, next.col), Finite(Add(curDist, JumpCost(d, next.steps))));
    }

    /** Queueing an entry keyed by its cell's best known cost plus the
        estimate keeps the queue ready. */
    lemma QueueReadyPush(openList: seq<Node>, node: Node)
      requires Valid() && QueueReady(openList) && InBounds(mapWidth, mapHeight, node.row, node.col)
      requires distanceToGoal[node.row, node.col].Finite?
      requires node.sortCost == Value(distanceToGoal[node.row, node.col].cost) + Heuristic(node.row, node.col)
      ensures QueueReady(openList + [node])
    {
      forall q | q in openList + [node]
        ensures InBounds(mapWidth, mapHeight, q.row, q.col) && distanceToGoal[q.row, q.col].Finite?
        ensures Value(distanceToGoal[q.row, q.col].cost) + Heuristic(q.row, q.col) <= q.sortCost
      {
        if q != node {
          assert q in openList;
        }
      }
    }

    /** Queueing an entry keyed by its cell's best known cost brings that
        cell back into the frontier. */
    lemma FrontierPush(openList: seq<Node>, node: Node, done: set<(int, int)>)
      requires Valid() && InBounds(mapWidth, mapHeight, node.row, node.col)
      requires Frontier(openList, done + {(node.row, node.col)})
      requires Keyed(node, openList + [node], node.row, node.col)
      ensures Frontier(openList + [node], done)
    {
      forall r, c | Open(r, c, done)
        ensures exists q :: Keyed(q, openList + [node], r, c)
      {
        if (r, c) == (node.row, node.col) {
          assert Keyed(node, openList + [node], r, c);
        } else {
          assert Open(r, c, done + {(node.row, node.col)});
          var q :| Keyed(q, openList, r, c);
          assert Keyed(q, openList + [node], r, c);
        }
      }
    }

    /** Lower the best known cost of `next`, the successor of `cur` along
        `d`, to the cost through `cur`, which improves it, and push an entry
        for it; no other cell's best known cost changes. */
    method Improve(cur: Node, curDist: Cost, d: Dir, next: Jump, openList: seq<Node>,
                   ghost trace: seq<Visit>, ghost arrivals: seq<Arrival>) returns (pushed: seq<Node>)
      requires Valid() && InBounds(mapWidth, mapHeight, cur.row, cur.col) && (cur.row, cur.col) in Cells(trace)
      requires PrintedCost(trace, cur.row, cur.col) == curDist
      requires d in ValidDirections(cur.dir) && InBounds(mapWidth, mapHeight, next.row, next.col)
      requires Successor(cur.row, cur.col, goalRow, goalCol, d, distances[cur.row, cur.col, Index(d)]) == Some(next)
      requires Improves(Add(curDist, JumpCost(d, next.steps)), distanceToGoal[next.row, next.col])
      requires QueueReady(openList) && QueueLinked(openList, trace) && Frontier(openList, Cells(trace))
      requires RelaxedAll(trace, arrivals)
      modifies distanceToGoal
      ensures QueueReady(pushed) && QueueLinked(pushed, trace) && Frontier(pushed, Cells(trace)) && RelaxedAll(trace, arrivals)
      ensures |pushed| == |openList| + 1 && pushed[..|openList|] == openList
      ensures forall q :: Queued(q, pushed[|openList|..]) ==> PushedFrom(q, cur, curDist)
      ensures forall q :: Queued(q, pushed[|openList|..]) ==>
        InBounds(mapWidth, mapHeight, q.row, q.col) && BeatsIn(q, old(Costs()))
      ensures distanceToGoal[next.row, next.col] == Finite(Add(curDist, JumpCost(d, next.steps)))
      ensures forall r, c :: 0 <= r < MAPSIZE && 0 <= c < MAPSIZE && (r != next.row || c != next.col) ==>
        distanceToGoal[r, c] == old(distanceToGoal[r, c])
      ensures NoneRaised(old(Costs()), Costs()) && Recorded(old(Costs()), Costs(), pushed[|openList|..])
      ensures forall d' :: old(RelaxedAlong(cur.row, cur.col, curDist, d')) ==> RelaxedAlong(cur.row, cur.col, curDist, d')
    {
      var givenCost := Add(curDist, JumpCost(d, next.steps));
      Lower(next.row, next.col, givenCost, openList, Cells(trace), trace, arrivals, cur.row, cur.col, curDist);
      pushed := Push(cur, curDist, d, next, openList, trace, old(Costs()));
    }

    /** Push `next`, the successor of `cur` along `d`, exactly when the cost
        through `cur` improves the best known cost of its cell, which then
        becomes that cost; no other cell's best known cost changes. */
    method Offer(cur: Node, curDist: Cost, d: Dir, next: Jump, openList: seq<Node>,
                 ghost trace: seq<Visit>, ghost arrivals: seq<Arrival>) returns (pushed: seq<Node>)
      requires Valid() && InBounds(mapWidth, mapHeight, cur.row, cur.col) && (cur.row, cur.col) in Cells(trace)
      requires PrintedCost(trace, cur.row, cur.col) == curDist
      requires d in ValidDirections(cur.dir) && InBounds(mapWidth, mapHeight, next.row, next.col)
      requires Successor(cur.row, cur.col, goalRow, goalCol, d, distances[cur.row, cur.col, Index(d)]) == Some(next)
      requires QueueReady(openList) && QueueLinked(openList, trace) && Frontier(openList, Cells(trace))
      requires RelaxedAll(trace, arrivals)
      modifies distanceToGoal
      ensures QueueReady(pushed) && QueueLinked(pushed, trace) && Frontier(pushed, Cells(trace)) && RelaxedAll(trace, arrivals)
      ensures |openList| <= |pushed| <= |openList| + 1 && pushed[..|openList|] == openList
      ensures forall q :: Queued(q, pushed[|openList|..]) ==> PushedFrom(q, cur, curDist)
      ensures forall q :: Queued(q, pushed[|openList|..]) ==>
        InBounds(mapWidth, mapHeight, q.row, q.col) && BeatsIn(q, old(Costs()))
      ensures var given := Add(curDist, JumpCost(d, next.steps));
        && (|pushed| == |openList| + 1 <==> Improves(given, old(distanceToGoal[next.row, next.col])))
        && distanceToGoal[next.row, next.col] ==
             if Improves(given, old(distanceToGoal[next.row, next.col])) then Finite(given)
             else old(distanceToGoal[next.row, next.col])
      ensures forall r, c :: 0 <= r < MAPSIZE && 0 <= c < MAPSIZE && (r != next.row || c != next.col) ==>
        distanceToGoal[r, c] == old(distanceToGoal[r, c])
      ensures NoneRaised(old(Costs()), Costs()) && Recorded(old(Costs()), Costs(), pushed[|openList|..])
      ensures forall d' :: old(RelaxedAlong(cur.row, cur.col, curDist, d')) ==> RelaxedAlong(cur.row, cur.col, curDist, d')
    {
      pushed := openList;
      var givenCost := Add(curDist, JumpCost(d, next.steps));
      if Improves(givenCost, distanceToGoal[next.row, next.col]) {
        pushed := Improve(cur, curDist, d, next, openList, trace, arrivals);
      }
    }

    /** The body of the direction loop of `run`: when `cur` has a successor
        along `d`, push it exactly when the cost through `cur` improves its
        cell's best known cost, which then becomes that cost. Afterwards the
        successor's best known cost is at most the cost through `cur`. */
    method Relax(cur: Node, curDist: Cost, d: Dir, openList: seq<Node>,
                 ghost trace: seq<Visit>, ghost arrivals: seq<Arrival>) returns (pushed: seq<Node>)
      requires Valid() && TableBounded()
      requires InBounds(mapWidth, mapHeight, cur.row, cur.col) && (cur.row, cur.col) in Cells(trace)
      requires PrintedCost(trace, cur.row, cur.col) == curDist
      requires d in ValidDirections(cur.dir)
      requires QueueReady(openList) && QueueLinked(openList, trace) && Frontier(openList, Cells(trace))
      requires RelaxedAll(trace, arrivals)
      modifies distanceToGoal
      ensures QueueReady(pushed) && QueueLinked(pushed, trace) && Frontier(pushed, Cells(trace)) && RelaxedAll(trace, arrivals)
      ensures |openList| <= |pushed| <= |openList| + 1 && pushed[..|openList|] == openList
      ensures forall q :: Queued(q, pushed[|openList|..]) ==> PushedFrom(q, cur, curDist)
      ensures forall q :: Queued(q, pushed[|openList|..]) ==>
        InBounds(mapWidth, mapHeight, q.row, q.col) && BeatsIn(q, old(Costs()))
      ensures var j := Successor(cur.row, cur.col, goalRow, goalCol, d, distances[cur.row, cur.col, Index(d)]);
        && (j.Some? ==> InBounds(mapWidth, mapHeight, j.value.row, j.value.col))
        && (|pushed| == |openList| + 1 <==>
              j.Some? && Improves(Add(curDist, JumpCost(d, j.value.steps)), old(distanceToGoal[j.value.row, j.value.col])))
      ensures var j := Successor(cur.row, cur.col, goalRow, goalCol, d, distances[cur.row, cur.col, Index(d)]);
        j.Some? ==> (distanceToGoal[j.value.row, j.value.col] ==
          var given := Add(curDist, JumpCost(d, j.value.steps));
          if Improves(given, old(distanceToGoal[j.value.row, j.value.col])) then Finite(given)
          else old(distanceToGoal[j.value.row, j.value.col]))
      ensures var j := Successor(cur.row, cur.col, goalRow, goalCol, d, distances[cur.row, cur.col, Index(d)]);
        forall r, c :: 0 <= r < MAPSIZE && 0 <= c < MAPSIZE && (j.None? || r != j.value.row || c != j.value.col) ==>
          distanceToGoal[r, c] == old(distanceToGoal[r, c])
      ensures RelaxedAlong(cur.row, cur.col, curDist, d)
      ensures NoneRaised(old(Costs()), Costs()) && Recorded(old(Costs()), Costs(), pushed[|openList|..])
      ensures forall d' :: old(RelaxedAlong(cur.row, cur.col, curDist, d')) ==> RelaxedAlong(cur.row, cur.col, curDist, d')
    {
      pushed := openList;
      var entry := distances[cur.row, cur.col, Index(d)];
      var succ := Successor(cur.row, cur.col, goalRow, goalCol, d, entry);
      if succ.Some? {
        SuccessorInBounds(mapWidth, mapHeight, cur.row, cur.col, goalRow, goalCol, d, entry);
        pushed := Offer(cur, curDist, d, succ.value, openList, trace, arrivals);
      }
    }

    /** The inner loop of `run`: relax every direction the arrival direction
        of `cur` allows. Each new entry was pushed from `cur` with a key below
        its cell's best known cost before the loop; a cell's best known cost
        changes only where one of the new entries is keyed by the new cost,
        and never rises; afterwards every successor's best known cost is at most
        the cost through `cur`. */
    method Expand(cur: Node, curDist: Cost, openList: seq<Node>,
                  ghost trace: seq<Visit>, ghost arrivals: seq<Arrival>) returns (pushed: seq<Node>)
      requires Valid() && TableBounded()
      requires InBounds(mapWidth, mapHeight, cur.row, cur.col) && (cur.row, cur.col) in Cells(trace)
      requires PrintedCost(trace, cur.row, cur.col) == curDist
      requires QueueReady(openList) && QueueLinked(openList, trace) && Frontier(openList, Cells(trace))
      requires RelaxedAll(trace, arrivals)
      modifies distanceToGoal
      ensures QueueReady(pushed) && QueueLinked(pushed, trace) && Frontier(pushed, Cells(trace)) && RelaxedAll(trace, arrivals)
      ensures |openList| <= |pushed| <= |openList| + DIRCOUNT && pushed[..|openList|] == openList
      ensures forall q :: Queued(q, pushed[|openList|..]) ==> PushedFrom(q, cur, curDist)
      ensures forall q :: Queued(q, pushed[|openList|..]) ==>
        InBounds(mapWidth, mapHeight, q.row, q.col) && BeatsIn(q, old(Costs()))
      ensures NoneRaised(old(Costs()), Costs()) && Recorded(old(Costs()), Costs(), pushed[|openList|..])
      ensures forall d :: d in ValidDirections(cur.dir) ==> RelaxedAlong(cur.row, cur.col, curDist, d)
    {
      ghost var start := Costs();
      CostsDomain();
      pushed := openList;
      var dirs := ValidDirections(cur.dir);
      for t := 0 to |dirs|
        invariant QueueReady(pushed) && QueueLinked(pushed, trace) && Frontier(pushed, Cells(trace)) && RelaxedAll(trace, arrivals)
        invariant |openList| <= |pushed| <= |openList| + t && pushed[..|openList|] == openList
        invariant forall q :: Queued(q, pushed[|openList|..]) ==> PushedFrom(q, cur, curDist)
        invariant forall q :: Queued(q, pushed[|openList|..]) ==>
          InBounds(mapWidth, mapHeight, q.row, q.col) && BeatsIn(q, start)
        invariant NoneRaised(start, Costs()) && Recorded(start, Costs(), pushed[|openList|..])
        invariant forall d :: d in dirs[..t] ==> RelaxedAlong(cur.row, cur.col, curDist, d)
      {
        pushed := RelaxStep(cur, curDist, dirs, t, openList, pushed, trace, arrivals, start);
      }
    }

    /** The entries pushed from `cur` since `openList`, in two rounds: those
        of the first round beat the costs `start`, those of the second the
        costs `mid`, which are no higher; so all of them beat `start`. */
    lemma EntriesKept(openList: seq<Node>, queue: seq<Node>, pushed: seq<Node>, cur: Node, curDist: Cost,
                      start: map<(int, int), Best>, mid: map<(int, int), Best>)
      requires Valid() && start.Keys == mid.Keys && NoneRaised(start, mid)
      requires |openList| <= |queue| <= |pushed| && pushed[..|queue|] == queue
      requires forall q :: Queued(q, queue[|openList|..]) ==>
        PushedFrom(q, cur, curDist) && InBounds(mapWidth, mapHeight, q.row, q.col) && BeatsIn(q, start)
      requires forall q :: Queued(q, pushed[|queue|..]) ==>
        PushedFrom(q, cur, curDist) && InBounds(mapWidth, mapHeight, q.row, q.col) && BeatsIn(q, mid)
      ensures forall q :: Queued(q, pushed[|openList|..]) ==>
        PushedFrom(q, cur, curDist) && InBounds(mapWidth, mapHeight, q.row, q.col) && BeatsIn(q, start)
    {
      forall q | Queued(q, pushed[|openList|..])
        ensures PushedFrom(q, cur, curDist) && InBounds(mapWidth, mapHeight, q.row, q.col) && BeatsIn(q, start)
      {
        SuffixSplit(pushed, |openList|, |queue|, q);
        if q in pushed[|queue|..] {
          assert Queued(q, pushed[|queue|..]);
          BeatsEarlier(q, mid[(q.row, q.col)], start[(q.row, q.col)]);
        } else {
          assert pushed[|openList|..|queue|] == queue[|openList|..];
          assert Queued(q, queue[|openList|..]);
        }
      }
    }

    /** Pass `t` of the direction loop of `run`, seen from the start of the
        loop: relax `dirs[t]` and keep what the loop promises about the
        directions done, the entries pushed since then and the best known
        costs `start` it began with. */
    method RelaxStep(cur: Node, curDist: Cost, dirs: seq<Dir>, t: int, openList: seq<Node>, queue: seq<Node>,
                     ghost trace: seq<Visit>, ghost arrivals: seq<Arrival>, ghost start: map<(int, int), Best>)
      returns (pushed: seq<Node>)
      requires Valid() && TableBounded()
      requires InBounds(mapWidth, mapHeight, cur.row, cur.col) && (cur.row, cur.col) in Cells(trace)
      requires PrintedCost(trace, cur.row, cur.col) == curDist
      requires dirs == ValidDirections(cur.dir) && 0 <= t < |dirs|
      requires forall d :: d in dirs[..t] ==> RelaxedAlong(cur.row, cur.col, curDist, d)
      requires QueueReady(queue) && QueueLinked(queue, trace) && Frontier(queue, Cells(trace)) && RelaxedAll(trace, arrivals)
      requires |openList| <= |queue| <= |openList| + t && queue[..|openList|] == openList && start.Keys == Board()
      requires forall q :: Queued(q, queue[|openList|..]) ==> PushedFrom(q, cur, curDist)
      requires forall q :: Queued(q, queue[|openList|..]) ==>
        InBounds(mapWidth, mapHeight, q.row, q.col) && BeatsIn(q, start)
      requires NoneRaised(start, Costs()) && Recorded(start, Costs(), queue[|openList|..])
      modifies distanceToGoal
      ensures QueueReady(pushed) && QueueLinked(pushed, trace) && Frontier(pushed, Cells(trace)) && RelaxedAll(trace, arrivals)
      ensures |openList| <= |pushed| <= |openList| + t + 1 && pushed[..|openList|] == openList
      ensures forall q :: Queued(q, pushed[|openList|..]) ==> PushedFrom(q, cur, curDist)
      ensures forall q :: Queued(q, pushed[|openList|..]) ==>
        InBounds(mapWidth, mapHeight, q.row, q.col) && BeatsIn(q, start)
      ensures NoneRaised(start, Costs()) && Recorded(start, Costs(), pushed[|openList|..])
      ensures forall d :: d in dirs[..t + 1] ==> RelaxedAlong(cur.row, cur.col, curDist, d)
    {
      ghost var mid := Costs();
      CostsDomain();
      label relaxing:
      pushed := Relax(cur, curDist, dirs[t], queue, trace, arrivals);
      assert dirs[..t + 1] == dirs[..t] + [dirs[t]];
      CostsDomain();
      NoneRaisedChain(start, mid, Costs());
      EntriesKept(openList, queue, pushed, cur, curDist, start, mid);
      RecordedChain(start, mid, Costs(), pushed, queue, |openList|);
      assert pushed[..|openList|] == queue[..|openList|];
    }

    /** What holds between two passes of `run`'s loop: before the first
        expansion the queue holds just the start, reached by no direction, at
        cost 0; every entry is on the grid with a finite cost and (later) was
        pushed by an expanded cell; every unexpanded grid cell with a finite
        cost has an entry keyed by that cost; the printed lines are well
        formed, match the marks and their arrivals, and every printed cell
        but the newest is relaxed along the directions its arrival allows;
        the goal has not been printed. */
    /** The key a printed line was taken off the queue with: its printed
        cost plus the estimate. */
    function Key(v: Visit): real
      reads this
    {
      Value(v.dist) + Heuristic(v.row, v.col)
    }

    /** Best-first order: the keys of the printed lines never decrease. */
    ghost predicate KeysOrdered(trace: seq<Visit>)
      reads this
    {
      forall i, j :: 0 <= i < j < |trace| ==> Key(trace[i]) <= Key(trace[j])
    }

    /** A line keyed no lower than every line printed before it keeps the
        keys in order. */
    lemma KeysExtend(trace: seq<Visit>, v: Visit, bound: real)
      requires KeysOrdered(trace) && (forall i :: 0 <= i < |trace| ==> Key(trace[i]) <= bound) && bound <= Key(v)
      ensures KeysOrdered(trace + [v])
      ensures forall i :: 0 <= i < |trace + [v]| ==> Key((trace + [v])[i]) <= Key(v)
    {
      var t := trace + [v];
      forall i, j | 0 <= i < j < |t| ensures Key(t[i]) <= Key(t[j]) {
        assert t[i] == trace[i];
        if j < |trace| {
          assert t[j] == trace[j];
        }
      }
    }

    /** The loop state of `run` seen as a best-first search: the printed
        keys are in order and none is above `bound`, which no entry of the
        queue is below. */
    ghost predicate BestFirst(openList: seq<Node>, trace: seq<Visit>, bound: real)
      reads this
    {
      && KeysOrdered(trace) && Above(openList, bound)
      && forall i :: 0 <= i < |trace| ==> Key(trace[i]) <= bound
    }

    /** Printing a line keyed by the key of queue entry `i`, when every key
        then queued is at least that key, keeps the search best-first with
        that key as the new bound. */
    lemma BestFirstPrint(openList: seq<Node>, i: int, rest: seq<Node>, trace: seq<Visit>, v: Visit, bound: real)
      requires BestFirst(openList, trace, bound) && 0 <= i < |openList|
      requires Key(v) == openList[i].sortCost && Above(rest, Key(v))
      ensures BestFirst(rest, trace + [v], Key(v))
    {
      KeysExtend(trace, v, bound);
    }

    /** Dropping queue entry `i` without printing keeps the search
        best-first. */
    lemma BestFirstSkip(openList: seq<Node>, i: int, trace: seq<Visit>, bound: real)
      requires BestFirst(openList, trace, bound) && 0 <= i < |openList|
      ensures BestFirst(openList[..i] + openList[i + 1..], trace, bound)
    {
      AboveRest(openList, i, bound);
    }

    ghost predicate Searching(openList: seq<Node>, trace: seq<Visit>, arrivals: seq<Arrival>)
      reads this, distances, visited, distanceToGoal
      requires Valid()
    {
      && (|trace| == 0 ==>
            && |openList| == 1 && openList[0].row == startRow && openList[0].col == startCol
            && openList[0].prow == -1 && openList[0].pcol == -1 && openList[0].dir == NONE
            && InBounds(mapWidth, mapHeight, startRow, startCol)
            && distanceToGoal[startRow, startCol] == Finite(Cost(0, 0))
            && !visited[startRow, startCol])
      && QueueReady(openList) && Frontier(openList, Cells(trace))
      && (|trace| > 0 ==> QueueLinked(openList, trace))
      && TraceOk(trace) && VisitedMatches(trace)
      && ArrivalsMatch(trace, arrivals) && RelaxedAll(trace, arrivals)
      && (goalRow, goalCol) !in Cells(trace)
    }

    /** Taking a least entry `i` whose cell was not expanded off the queue
        keeps the rest ready and linked; the entry is on the grid with a
        finite cost; before the first expansion it is the start and nothing
        is left; later its key is exactly that cost plus the estimate, so
        that cost is its parent's printed cost plus the jump. */
    lemma Dequeue(openList: seq<Node>, i: int, trace: seq<Visit>, arrivals: seq<Arrival>)
      requires Valid() && Searching(openList, trace, arrivals) && 0 <= i < |openList|
      requires forall k :: 0 <= k < |openList| ==> openList[i].sortCost <= openList[k].sortCost
      requires (openList[i].row, openList[i].col) !in Cells(trace)
      ensures var rest, cur := openList[..i] + openList[i + 1..], openList[i];
        && QueueReady(rest) && (|trace| > 0 ==> QueueLinked(rest, trace))
        && InBounds(mapWidth, mapHeight, cur.row, cur.col)
        && distanceToGoal[cur.row, cur.col].Finite?
        && cur.sortCost == Value(distanceToGoal[cur.row, cur.col].cost) + Heuristic(cur.row, cur.col)
        && Above(rest, cur.sortCost)
        && Frontier(rest, Cells(trace) + {(cur.row, cur.col)})
        && (|trace| == 0 ==>
              && cur.row == startRow && cur.col == startCol && cur.prow == -1 && cur.pcol == -1 && cur.dir == NONE
              && distanceToGoal[cur.row, cur.col] == Finite(Cost(0, 0)) && rest == [])
        && (|trace| > 0 ==>
              && cur.dir.Toward? && (cur.prow, cur.pcol) in Cells(trace)
              && Jumps(cur.prow, cur.pcol, cur.dir.dir, cur.row, cur.col,
                       PrintedCost(trace, cur.prow, cur.pcol), Value(distanceToGoal[cur.row, cur.col].cost)))
    {
      RemoveEntry(openList, i, trace);
      RemoveFrontier(openList, i, Cells(trace));
      TopKeyed(openList, i, Cells(trace));
      AboveRest(openList, i, openList[i].sortCost);
    }

    /** Dropping an entry whose cell was expanded already keeps the whole
        loop state. */
    lemma Skip(openList: seq<Node>, i: int, trace: seq<Visit>, arrivals: seq<Arrival>, bound: real)
      requires Valid() && Searching(openList, trace, arrivals) && 0 <= i < |openList|
      requires (openList[i].row, openList[i].col) in Cells(trace) && BestFirst(openList, trace, bound)
      ensures Searching(openList[..i] + openList[i + 1..], trace, arrivals)
      ensures BestFirst(openList[..i] + openList[i + 1..], trace, bound)
    {
      var cur := openList[i];
      RemoveEntry(openList, i, trace);
      RemoveFrontier(openList, i, Cells(trace));
      assert Cells(trace) + {(cur.row, cur.col)} == Cells(trace);
      BestFirstSkip(openList, i, trace, bound);
    }

    /** Dropping entry `i` keeps the other entries ready and linked. */
    lemma RemoveEntry(openList: seq<Node>, i: int, trace: seq<Visit>)
      requires Valid() && 0 <= i < |openList| && QueueReady(openList)
      requires |trace| > 0 ==> QueueLinked(openList, trace)
      ensures QueueReady(openList[..i] + openList[i + 1..])
      ensures |trace| > 0 ==> QueueLinked(openList[..i] + openList[i + 1..], trace) && EntryLinked(openList[i], trace)
    {
      var rest := openList[..i] + openList[i + 1..];
      assert forall q :: q in rest ==> q in openList;
      if |trace| > 0 {
        forall q | Queued(q, rest) ensures EntryLinked(q, trace) {
          assert Queued(q, openList);
        }
        assert Queued(openList[i], openList);
      }
    }

    /** Dropping the entry for a cell keeps every other open cell keyed,
        once that cell counts as done. */
    lemma RemoveFrontier(openList: seq<Node>, i: int, done: set<(int, int)>)
      requires Valid() && 0 <= i < |openList| && Frontier(openList, done)
      ensures Frontier(openList[..i] + openList[i + 1..], done + {(openList[i].row, openList[i].col)})
    {
      var rest, cur := openList[..i] + openList[i + 1..], openList[i];
      forall r, c | Open(r, c, done + {(cur.row, cur.col)})
        ensures exists q :: Keyed(q, rest, r, c)
      {
        assert Open(r, c, done);
        var q :| Keyed(q, openList, r, c);
        RemoveKeeps(openList, i, q);
        assert Keyed(q, rest, r, c);
      }
    }

    /** A least entry of a ready queue whose cell is still open carries
        exactly that cell's best known cost plus the estimate. */
    lemma TopKeyed(openList: seq<Node>, i: int, done: set<(int, int)>)
      requires Valid() && 0 <= i < |openList| && QueueReady(openList) && Frontier(openList, done)
      requires forall k :: 0 <= k < |openList| ==> openList[i].sortCost <= openList[k].sortCost
      requires (openList[i].row, openList[i].col) !in done
      ensures var cur := openList[i];
        && InBounds(mapWidth, mapHeight, cur.row, cur.col) && distanceToGoal[cur.row, cur.col].Finite?
        && cur.sortCost == Value(distanceToGoal[cur.row, cur.col].cost) + Heuristic(cur.row, cur.col)
    {
      var cur := openList[i];
      assert cur in openList;
      assert Open(cur.row, cur.col, done);
      var q :| Keyed(q, openList, cur.row, cur.col);
      var k :| 0 <= k < |openList| && openList[k] == q;
    }

    /** Expanding a cell just printed on `line`: relax every direction its
        arrival allows, after which it joins the relaxed cells and the loop
        state holds for the longer trace. */
    method Spread(cur: Node, line: Visit, rest: seq<Node>, ghost trace: seq<Visit>, ghost arrivals: seq<Arrival>)
      returns (rest': seq<Node>)
      requires Valid() && TableBounded() && |arrivals| == |trace|
      requires line.row == cur.row && line.col == cur.col && InBounds(mapWidth, mapHeight, cur.row, cur.col)
      requires TraceOk(trace + [line]) && VisitedMatches(trace + [line])
      requires ArrivalsMatch(trace + [line], arrivals + [cur.dir]) && RelaxedAll(trace + [line], arrivals)
      requires (goalRow, goalCol) !in Cells(trace + [line])
      requires QueueReady(rest) && QueueLinked(rest, trace + [line]) && Frontier(rest, Cells(trace + [line]))
      requires Above(rest, Key(line))
      modifies distanceToGoal
      ensures Searching(rest', trace + [line], arrivals + [cur.dir])
      ensures Above(rest', Key(line))
      ensures |rest| <= |rest'| <= |rest| + DIRCOUNT && rest'[..|rest|] == rest
      ensures NoneRaised(old(Costs()), Costs()) && Recorded(old(Costs()), Costs(), rest'[|rest|..])
    {
      CellsAppend(trace, line);
      PrintedCostAppend(trace, line, cur.row, cur.col);
      rest' := Expand(cur, line.dist, rest, trace + [line], arrivals);
      RelaxedAllExtend(trace + [line], arrivals, cur.dir);
      forall k | |rest| <= k < |rest'| ensures Key(line) <= rest'[k].sortCost {
        assert rest'[|rest|..][k - |rest|] == rest'[k];
        assert Queued(rest'[k], rest'[|rest|..]);
        PushedAbove(rest'[k], cur, line.dist);
      }
    }

    /** Expanding a least entry `i` whose cell was not expanded: take it off
        the queue, print its line with its best known cost and, unless it is
        the goal, relax its successors; the printed cell joins the relaxed
        ones. */
    method ExpandEntry(openList: seq<Node>, i: int, ghost trace: seq<Visit>, ghost arrivals: seq<Arrival>, ghost bound: real)
      returns (rest: seq<Node>, line: Visit)
      requires Valid() && TableBounded() && Searching(openList, trace, arrivals) && 0 <= i < |openList|
      requires BestFirst(openList, trace, bound)
      requires forall k :: 0 <= k < |openList| ==> openList[i].sortCost <= openList[k].sortCost
      requires (openList[i].row, openList[i].col) !in Cells(trace)
      modifies visited, distanceToGoal
      ensures var cur := openList[i];
        && line == Visit(cur.col, cur.row, cur.pcol, cur.prow, old(distanceToGoal[cur.row, cur.col]).cost)
        && InBounds(mapWidth, mapHeight, cur.row, cur.col)
        && Cells(trace + [line]) == Cells(trace) + {(cur.row, cur.col)}
      ensures BestFirst(rest, trace + [line], Key(line))
      ensures line.row == goalRow && line.col == goalCol ==>
        && TraceOk(trace + [line]) && VisitedMatches(trace + [line])
        && ArrivalsMatch(trace + [line], arrivals + [openList[i].dir])
      ensures line.row != goalRow || line.col != goalCol ==> Searching(rest, trace + [line], arrivals + [openList[i].dir])
    {
      var cur := openList[i];
      rest, line := Take(openList, i, trace, arrivals);
      if cur.row != goalRow || cur.col != goalCol {
        rest := Spread(cur, line, rest, trace, arrivals);
      }
      BestFirstPrint(openList, i, rest, trace, line, bound);
    }

    /** The first half of expanding entry `i`: take it off the queue and
        print its line, keyed by the entry's key, with the rest of the queue
        keyed no lower; the printed lines and the queue then hold what
        relaxing the new line needs. */
    method Take(openList: seq<Node>, i: int, ghost trace: seq<Visit>, ghost arrivals: seq<Arrival>)
      returns (rest: seq<Node>, line: Visit)
      requires Valid() && Searching(openList, trace, arrivals) && 0 <= i < |openList|
      requires forall k :: 0 <= k < |openList| ==> openList[i].sortCost <= openList[k].sortCost
      requires (openList[i].row, openList[i].col) !in Cells(trace)
      modifies visited
      ensures var cur := openList[i];
        && line == Visit(cur.col, cur.row, cur.pcol, cur.prow, distanceToGoal[cur.row, cur.col].cost)
        && InBounds(mapWidth, mapHeight, cur.row, cur.col)
        && Cells(trace + [line]) == Cells(trace) + {(cur.row, cur.col)}
        && (goalRow, goalCol) !in Cells(trace)
      ensures rest == openList[..i] + openList[i + 1..]
      ensures Key(line) == openList[i].sortCost && Above(rest, Key(line))
      ensures |arrivals| == |trace| && TraceOk(trace + [line]) && VisitedMatches(trace + [line])
      ensures ArrivalsMatch(trace + [line], arrivals + [openList[i].dir]) && RelaxedAll(trace + [line], arrivals)
      ensures QueueReady(rest) && QueueLinked(rest, trace + [line]) && Frontier(rest, Cells(trace + [line]))
    {
      var cur := openList[i];
      Dequeue(openList, i, trace, arrivals);
      rest := openList[..i] + openList[i + 1..];
      line := Settle(cur, rest, trace);
      ArrivalsExtend(trace, arrivals, line, cur.dir);
      RelaxedAllAppend(trace, arrivals, line);
    }

    /** One pass of `run`'s loop: take the top entry off the queue; skip it
        when its cell was expanded already; otherwise expand it. */
    method Step(openList: seq<Node>, ghost trace: seq<Visit>, ghost arrivals: seq<Arrival>, ghost bound: real)
      returns (rest: seq<Node>, line: Option<Visit>, ghost arrival: Arrival)
      requires Valid() && TableBounded() && openList != [] && Searching(openList, trace, arrivals)
      requires BestFirst(openList, trace, bound)
      modifies visited, distanceToGoal
      ensures line.None? ==> BestFirst(rest, trace, bound)
      ensures line.Some? ==> BestFirst(rest, trace + [line.value], Key(line.value))
      ensures line.None? ==> Searching(rest, trace, arrivals) && |rest| < |openList|
      ensures line.Some? ==>
        && 0 <= line.value.row < MAPSIZE && 0 <= line.value.col < MAPSIZE
        && (line.value.row, line.value.col) !in Cells(trace)
        && Cells(trace + [line.value]) == Cells(trace) + {(line.value.row, line.value.col)}
      ensures line.Some? && line.value.row == goalRow && line.value.col == goalCol ==>
        && TraceOk(trace + [line.value]) && VisitedMatches(trace + [line.value])
        && ArrivalsMatch(trace + [line.value], arrivals + [arrival])
      ensures line.Some? && (line.value.row != goalRow || line.value.col != goalCol) ==>
        Searching(rest, trace + [line.value], arrivals + [arrival])
    {
      var i := Top(openList);
      var cur := openList[i];
      arrival := cur.dir;
      if visited[cur.row, cur.col] {
        Skip(openList, i, trace, arrivals, bound);
        return openList[..i] + openList[i + 1..], None, arrival;
      }
      var visit;
      rest, visit := ExpandEntry(openList, i, trace, arrivals, bound);
      line := Some(visit);
    }

    /** When the queue runs empty, the printed cells are closed: every
        successor of a printed cell, along a direction its arrival allows,
        was printed as well. */
    lemma ClosedAtEnd(trace: seq<Visit>, arrivals: seq<Arrival>)
      requires Valid() && TableBounded() && Searching([], trace, arrivals)
      ensures Closed(trace, arrivals)
    {
      TraceOnGrid(trace);
      forall i, d | 0 <= i < |trace| && d in ValidDirections(arrivals[i])
        ensures SuccessorPrinted(trace, i, d)
      {
        ClosedAt(trace, arrivals, i, d);
      }
    }

    /** One printed cell and one direction its arrival allows: its successor
        has a finite cost, so it has been expanded, since the queue is empty. */
    lemma ClosedAt(trace: seq<Visit>, arrivals: seq<Arrival>, i: int, d: Dir)
      requires Valid() && TableBounded() && Searching([], trace, arrivals)
      requires 0 <= i < |trace| && d in ValidDirections(arrivals[i])
      ensures SuccessorPrinted(trace, i, d)
    {
      TraceOnGrid(trace);
      var v := trace[i];
      var entry := distances[v.row, v.col, Index(d)];
      var j := Successor(v.row, v.col, goalRow, goalCol, d, entry);
      if j.Some? && (j.value.row, j.value.col) !in Cells(trace) {
        SuccessorInBounds(mapWidth, mapHeight, v.row, v.col, goalRow, goalCol, d, entry);
        assert RelaxedAt(trace, arrivals, i);
        assert RelaxedAlong(v.row, v.col, v.dist, d);
        assert Open(j.value.row, j.value.col, Cells(trace));
        assert false;
      }
    }

    /** `run`: best-first search from the start. Returns the printed lines,
        whether the goal was reached (otherwise "NO PATH" is printed), and
        the direction each printed cell was reached by. The lines form a
        well-formed trace (`TraceOk`, read through `TraceOnGrid`,
        `TraceDistinct`, `TraceLinked` and `TraceCosts`); the goal was
        reached exactly when it was printed, and then it is the last line;
        when it was not, the queue ran empty with the printed cells closed
        under the JPS+ successors; the marks match the printed cells. */
    method Run() returns (trace: seq<Visit>, found: bool, ghost arrivals: seq<Arrival>)
      requires Valid() && TableBounded()
      requires InBounds(mapWidth, mapHeight, startRow, startCol)
      modifies visited, distanceToGoal
      ensures |trace| >= 1 && TraceOk(trace) && ArrivalsMatch(trace, arrivals)
      ensures found <==> (goalRow, goalCol) in Cells(trace)
      ensures found ==> trace[|trace| - 1].row == goalRow && trace[|trace| - 1].col == goalCol
      ensures !found ==> Closed(trace, arrivals)
      ensures VisitedMatches(trace)
      ensures KeysOrdered(trace)
    {
      var openList := Begin();
      trace, arrivals := [], [];
      ghost var bound := Heuristic(startRow, startCol);

      while openList != []
        invariant Searching(openList, trace, arrivals)
        invariant BestFirst(openList, trace, bound)
        decreases Board() - Cells(trace), |openList|
      {
        var line;
        ghost var arrival;
        openList, line, arrival := Step(openList, trace, arrivals, bound);
        if line.Some? {
          Unprinted(trace, line.value);
          bound := Key(line.value);
          trace, arrivals := trace + [line.value], arrivals + [arrival];
          if line.value.row == goalRow && line.value.col == goalCol {
            found := true;
            return;
          }
        }
      }
      found := false;
      ClosedAtEnd(trace, arrivals);
    }
  }
}
