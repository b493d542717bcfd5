/** The eight compass directions of the 8-connected grid and the constant
    tables both phases index by them (the `direction` enumeration, `drow`,
    `dcol`, `ALLDIRS` and `validDirections`). */
module Directions {

  /** The real directions. The runtime's extra enumerator `NONE` is
      `Arrival.NONE` below, so it can never index a delta or distance table. */
  datatype Dir = North | South | West | East | NorthWest | NorthEast | SouthWest | SouthEast

  /** The direction a search node was reached by; only the start node has `NONE`. */
  datatype Arrival = NONE | Toward(dir: Dir)

  const DIRCOUNT: nat := 8

  /** The enumerator value (NORTH = 0 ... SOUTHEAST = 7), the last index of
      the distance arrays; the four cardinals take the values 0..3, which is
      why the jump-point flag arrays have only four slots. */
  function Index(d: Dir): (i: nat)
    ensures i < DIRCOUNT
    ensures i < 4 <==> IsCardinal(d)
  {
    match d
    case North => 0
    case South => 1
    case West => 2
    case East => 3
    case NorthWest => 4
    case NorthEast => 5
    case SouthWest => 6
    case SouthEast => 7
  }

  /** The direction with a given enumerator value. */
  function FromIndex(i: nat): (d: Dir)
    requires i < DIRCOUNT
    ensures Index(d) == i
  {
    if i == 0 then North
    else if i == 1 then South
    else if i == 2 then West
    else if i == 3 then East
    else if i == 4 then NorthWest
    else if i == 5 then NorthEast
    else if i == 6 then SouthWest
    else SouthEast
  }

  lemma IndexRoundTrip(d: Dir)
    ensures FromIndex(Index(d)) == d
  {
  }

  /** Row delta (`drow`): north is towards row 0. */
  function DRow(d: Dir): (dr: int)
    ensures -1 <= dr <= 1
  {
    match d
    case North => -1
    case South => 1
    case West => 0
    case East => 0
    case NorthWest => -1
    case NorthEast => -1
    case SouthWest => 1
    case SouthEast => 1
  }

  /** Column delta (`dcol`): west is towards column 0. */
  function DCol(d: Dir): (dc: int)
    ensures -1 <= dc <= 1
  {
    match d
    case North => 0
    case South => 0
    case West => -1
    case East => 1
    case NorthWest => -1
    case NorthEast => 1
    case SouthWest => -1
    case SouthEast => 1
  }

  /** `isCardinal`: a cardinal direction moves along exactly one axis, a
      diagonal along both. */
  function IsCardinal(d: Dir): (b: bool)
    ensures b <==> ((DRow(d) == 0) != (DCol(d) == 0))
    ensures !b ==> DRow(d) != 0 && DCol(d) != 0
  {
    d == North || d == South || d == West || d == East
  }

  /** The eight (drow, dcol) pairs are non-zero and pairwise distinct. */
  lemma DeltasDistinct(d1: Dir, d2: Dir)
    ensures DRow(d1) != 0 || DCol(d1) != 0
    ensures d1 != d2 ==> DRow(d1) != DRow(d2) || DCol(d1) != DCol(d2)
  {
  }

  /** The reverse direction: its delta is the negated delta. */
  function Opposite(d: Dir): (o: Dir)
    ensures DRow(o) == -DRow(d) && DCol(o) == -DCol(d)
  {
    match d
    case North => South
    case South => North
    case West => East
    case East => West
    case NorthWest => SouthEast
    case NorthEast => SouthWest
    case SouthWest => NorthEast
    case SouthEast => NorthWest
  }

  /** `ALLDIRS`: the clockwise order N, NE, E, SE, S, SW, W, NW in which the
      distances of a cell are written and read. Every direction occurs, and
      occurs once (distinct enumerator values). */
  function AllDirs(): (s: seq<Dir>)
    ensures |s| == DIRCOUNT
    ensures forall d :: d in s
    ensures forall i, j :: 0 <= i < j < |s| ==> Index(s[i]) != Index(s[j])
  {
    var s := [North, NorthEast, East, SouthEast, South, SouthWest, West, NorthWest];
    EveryDirIn(s);
    s
  }

  /** The column of direction `d` in a line of the interchange table. */
  function Position(d: Dir): (j: nat)
    ensures j < DIRCOUNT && AllDirs()[j] == d
    ensures forall i :: 0 <= i < DIRCOUNT && AllDirs()[i] == d ==> i == j
  {
    match d
    case North => 0
    case NorthEast => 1
    case East => 2
    case SouthEast => 3
    case South => 4
    case SouthWest => 5
    case West => 6
    case NorthWest => 7
  }

  /** A sequence naming all eight directions contains every direction. */
  lemma EveryDirIn(s: seq<Dir>)
    requires North in s && South in s && West in s && East in s
    requires NorthWest in s && NorthEast in s && SouthWest in s && SouthEast in s
    ensures forall d :: d in s
  {
    forall d: Dir ensures d in s {
      match d
      case North =>
      case South =>
      case West =>
      case East =>
      case NorthWest =>
      case NorthEast =>
      case SouthWest =>
      case SouthEast =>
    }
  }

  /** Scalar product of two direction deltas. */
  function Dot(a: Dir, b: Dir): int
  {
    DRow(a) * DRow(b) + DCol(a) * DCol(b)
  }

  /** The directions a node reached by `d` goes on exploring: for a cardinal
      every direction not pointing backwards, for a diagonal only those
      pointing strictly forwards. */
  predicate Forward(d: Dir, x: Dir)
  {
    if IsCardinal(d) then Dot(d, x) >= 0 else Dot(d, x) > 0
  }

  /** The successor directions after a cardinal move `d`: `d`, the two
      diagonals beside it and the two cardinals at right angles. */
  function CardinalSuccessors(d: Dir): (s: seq<Dir>)
    requires IsCardinal(d)
    ensures |s| == 5 && forall i, j :: 0 <= i < j < |s| ==> s[i] != s[j]
    ensures forall x :: x in s <==> Forward(d, x)
  {
    match d
    case North => [West, NorthWest, North, NorthEast, East]
    case South => [West, SouthWest, South, SouthEast, East]
    case West => [North, NorthWest, West, SouthWest, South]
    case East => [North, NorthEast, East, SouthEast, South]
  }

  /** The vertical component of a diagonal: the cardinal sharing its row
      delta. */
  function Vertical(d: Dir): (v: Dir)
    requires !IsCardinal(d)
    ensures IsCardinal(v) && DRow(v) == DRow(d) && DCol(v) == 0
  {
    if DRow(d) < 0 then North else South
  }

  /** The horizontal component of a diagonal: the cardinal sharing its
      column delta. */
  function Horizontal(d: Dir): (h: Dir)
    requires !IsCardinal(d)
    ensures IsCardinal(h) && DCol(h) == DCol(d) && DRow(h) == 0
  {
    if DCol(d) < 0 then West else East
  }

  /** The successor directions after a diagonal move `d`: its vertical
      component, its horizontal component and `d` itself. */
  function DiagonalSuccessors(d: Dir): (s: seq<Dir>)
    requires !IsCardinal(d)
    ensures |s| == 3 && s[0] == Vertical(d) && s[1] == Horizontal(d) && s[2] == d
    ensures forall x :: x in s <==> Forward(d, x)
  {
    match d
    case NorthWest => [North, West, NorthWest]
    case NorthEast => [North, East, NorthEast]
    case SouthWest => [South, West, SouthWest]
    case SouthEast => [South, East, SouthEast]
  }

  /** `validDirections`: the pruned successor directions for each arrival
      direction. */
  function ValidDirections(a: Arrival): (s: seq<Dir>)
    ensures |s| <= DIRCOUNT
    ensures forall i, j :: 0 <= i < j < |s| ==> s[i] != s[j]
    ensures a == NONE ==> |s| == DIRCOUNT && forall x :: x in s
    ensures a.Toward? ==> forall x :: x in s <==> Forward(a.dir, x)
    ensures a.Toward? ==> a.dir in s && Opposite(a.dir) !in s
    ensures a.Toward? && IsCardinal(a.dir) ==> |s| == 5
    ensures a.Toward? && !IsCardinal(a.dir) ==>
      |s| == 3 && s[0] == Vertical(a.dir) && s[1] == Horizontal(a.dir) && s[2] == a.dir
  {
    match a
    case NONE =>
      var all := [North, South, West, East, NorthWest, NorthEast, SouthWest, SouthEast];
      EveryDirIn(all);
      all
    case Toward(d) =>
      assert Forward(d, d) && !Forward(d, Opposite(d));
      if IsCardinal(d) then CardinalSuccessors(d) else DiagonalSuccessors(d)
  }
}
