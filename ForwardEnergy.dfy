/**
 * The forward-energy tables (SeamCarverForward.energyMap). For every cell,
 * `minimums` holds the least accumulated cost of a seam from row 0 that
 * ends there, and `map` holds the incremental cost of the transition
 * that wins. A seam enters (h, w) from the row above in one of three ways:
 * straight down from (h - 1, w), or diagonally from the left or right
 * neighbour. Each costs the new adjacency the removal creates. Neighbours
 * wrap around the row ends.
 */
module ForwardEnergy {
  import opened Utils

  /** At least `height` energy rows, the first `height` holding `width >= 1` values. */
  ghost predicate Grid(energy: seq<seq<int>>, height: int, width: int)
  {
    1 <= height <= |energy| && 1 <= width && forall h | 0 <= h < height :: |energy[h]| == width
  }

  /** The left neighbour of column `w`; column 0's is the last column. */
  function Left(w: int, width: int): (r: int)
    requires 0 <= w < width
    ensures 0 <= r < width
  {
    if w == 0 then width - 1 else w - 1
  }

  /** The right neighbour of column `w`; the last column's is column 0. */
  function Right(w: int, width: int): (r: int)
    requires 0 <= w < width
    ensures 0 <= r < width
  {
    if w == width - 1 then 0 else w + 1
  }

  /** The neighbours are the source's `Utils.mod(w - 1, width)` and `Utils.mod(w + 1, width)`. */
  lemma NeighboursAreMod(w: int, width: int)
    requires 0 <= w < width
    ensures Left(w, width) == Mod(w - 1, width)
    ensures Right(w, width) == Mod(w + 1, width)
  {
    if w == 0 {
      EuclidUnique(w - 1, width, -1, width - 1);
    } else {
      EuclidUnique(w - 1, width, 0, w - 1);
    }
    if w == width - 1 {
      EuclidUnique(w + 1, width, 1, 0);
    } else {
      EuclidUnique(w + 1, width, 0, w + 1);
    }
  }

  /** Cost of entering (h, w) straight from above: its two neighbours become adjacent. */
  function CostUp(energy: seq<seq<int>>, width: int, h: int, w: int): (c: int)
    requires 0 <= h < |energy| && |energy[h]| == width && 0 <= w < width
    ensures c >= 0
  {
    Abs(energy[h][Right(w, width)] - energy[h][Left(w, width)])
  }

  /** Cost of entering (h, w) from the upper left: also (h - 1, w) meets the left neighbour. */
  function CostLeft(energy: seq<seq<int>>, width: int, h: int, w: int): (c: int)
    requires 1 <= h < |energy| && |energy[h]| == width && |energy[h - 1]| == width && 0 <= w < width
    ensures c >= CostUp(energy, width, h, w)
  {
    Abs(energy[h - 1][w] - energy[h][Left(w, width)]) + CostUp(energy, width, h, w)
  }

  /** Cost of entering (h, w) from the upper right: also (h - 1, w) meets the right neighbour. */
  function CostRight(energy: seq<seq<int>>, width: int, h: int, w: int): (c: int)
    requires 1 <= h < |energy| && |energy[h]| == width && |energy[h - 1]| == width && 0 <= w < width
    ensures c >= CostUp(energy, width, h, w)
  {
    Abs(energy[h - 1][w] - energy[h][Right(w, width)]) + CostUp(energy, width, h, w)
  }

  /** The three ways into a cell from the row above. */
  datatype Move = Up | FromLeft | FromRight

  /** The column of the row above that `move` comes from. */
  function Source(w: int, width: int, move: Move): (r: int)
    requires 0 <= w < width
    ensures 0 <= r < width
  {
    match move
    case Up => w
    case FromLeft => Left(w, width)
    case FromRight => Right(w, width)
  }

  /** The incremental cost of entering (h, w) by `move`. */
  function MoveCost(energy: seq<seq<int>>, height: int, width: int, h: int, w: int, move: Move): int
    requires Grid(energy, height, width) && 1 <= h < height && 0 <= w < width
  {
    match move
    case Up => CostUp(energy, width, h, w)
    case FromLeft => CostLeft(energy, width, h, w)
    case FromRight => CostRight(energy, width, h, w)
  }

  /** `minimums[h][w]`: 0 in row 0, then the cheapest entry over the three moves; never negative, whatever the energies. */
  ghost function MinCost(energy: seq<seq<int>>, height: int, width: int, h: int, w: int): (c: int)
    requires Grid(energy, height, width) && 0 <= h < height && 0 <= w < width
    ensures c >= 0
    decreases h
  {
    if h == 0 then 0
    else Min3(MinCost(energy, height, width, h - 1, w) + CostUp(energy, width, h, w),
              MinCost(energy, height, width, h - 1, Left(w, width)) + CostLeft(energy, width, h, w),
              MinCost(energy, height, width, h - 1, Right(w, width)) + CostRight(energy, width, h, w))
  }

  /** The winning move into (h, w), ties going to Up, then FromLeft, then FromRight. */
  ghost function BestMove(energy: seq<seq<int>>, height: int, width: int, h: int, w: int): (move: Move)
    requires Grid(energy, height, width) && 1 <= h < height && 0 <= w < width
    ensures MinCost(energy, height, width, h, w) ==
      MinCost(energy, height, width, h - 1, Source(w, width, move)) + MoveCost(energy, height, width, h, w, move)
  {
    if MinCost(energy, height, width, h, w) == MinCost(energy, height, width, h - 1, w) + CostUp(energy, width, h, w) then Up
    else if MinCost(energy, height, width, h, w) == MinCost(energy, height, width, h - 1, Left(w, width)) + CostLeft(energy, width, h, w) then FromLeft
    else FromRight
  }

  /** `map[h][w]`: the up-cost in row 0, and the winning move's incremental cost below it. */
  ghost function Transition(energy: seq<seq<int>>, height: int, width: int, h: int, w: int): (c: int)
    requires Grid(energy, height, width) && 0 <= h < height && 0 <= w < width
    ensures c >= CostUp(energy, width, h, w)
  {
    if h == 0 then CostUp(energy, width, 0, w)
    else MoveCost(energy, height, width, h, w, BestMove(energy, height, width, h, w))
  }

  /** `m` holds the transition costs `map` gets from `energy`. */
  ghost predicate HoldsTransitions(m: seq<seq<int>>, energy: seq<seq<int>>, height: int, width: int)
  {
    && Grid(energy, height, width)
    && |m| == height
    && (forall h | 0 <= h < height :: |m[h]| >= width)
    && (forall h, w | 0 <= h < height && 0 <= w < width :: m[h][w] == Transition(energy, height, width, h, w))
  }

  /** Below row 0, `minimums` is reached by the winning move: its source cell's minimum plus its transition cost. */
  lemma MinCostAttained(energy: seq<seq<int>>, height: int, width: int, h: int, w: int)
    requires Grid(energy, height, width) && 1 <= h < height && 0 <= w < width
    ensures MinCost(energy, height, width, h, w) ==
      MinCost(energy, height, width, h - 1, Source(w, width, BestMove(energy, height, width, h, w))) + Transition(energy, height, width, h, w)
  {
  }

  /**
   * Below row 0, `minimums` is the least of the three entry costs and is
   * reached by the winning move: its source cell's minimum plus its
   * transition cost. Up wins every tie, and FromLeft wins a tie with FromRight.
   */
  lemma MinCostRecurrence(energy: seq<seq<int>>, height: int, width: int, h: int, w: int)
    requires Grid(energy, height, width) && 1 <= h < height && 0 <= w < width
    ensures forall move: Move :: (MinCost(energy, height, width, h, w) <=
      MinCost(energy, height, width, h - 1, Source(w, width, move)) + MoveCost(energy, height, width, h, w, move))
    ensures MinCost(energy, height, width, h, w) ==
      MinCost(energy, height, width, h - 1, Source(w, width, BestMove(energy, height, width, h, w))) + Transition(energy, height, width, h, w)
    ensures BestMove(energy, height, width, h, w) != Up ==>
      MinCost(energy, height, width, h, w) < MinCost(energy, height, width, h - 1, w) + CostUp(energy, width, h, w)
    ensures BestMove(energy, height, width, h, w) == FromRight ==>
      MinCost(energy, height, width, h, w) < MinCost(energy, height, width, h - 1, Left(w, width)) + CostLeft(energy, width, h, w)
  {
  }

  /** Every `map` entry is non-negative, whatever the energies: each transition costs at least the up-cost. */
  lemma TransitionNonNegative(energy: seq<seq<int>>, height: int, width: int, h: int, w: int)
    requires Grid(energy, height, width) && 0 <= h < height && 0 <= w < width
    ensures Transition(energy, height, width, h, w) >= CostUp(energy, width, h, w) >= 0
  {
    if h > 0 {
      match BestMove(energy, height, width, h, w)
      case Up =>
      case FromLeft => assert CostLeft(energy, width, h, w) >= CostUp(energy, width, h, w);
      case FromRight => assert CostRight(energy, width, h, w) >= CostUp(energy, width, h, w);
    }
  }

  /**
   * Total cost of the path that enters (h, w) by `moves[0]`, the cell it
   * came from by `moves[1]`, and so on up to row 0.
   */
  ghost function TraceCost(energy: seq<seq<int>>, height: int, width: int, moves: seq<Move>, h: int, w: int): int
    requires Grid(energy, height, width) && 0 <= h < height && 0 <= w < width && |moves| == h
    decreases h
  {
    if h == 0 then 0
    else MoveCost(energy, height, width, h, w, moves[0]) +
         TraceCost(energy, height, width, moves[1..], h - 1, Source(w, width, moves[0]))
  }

  /** A path entering (h, w) by `move` costs that move plus the rest of the path from its source cell. */
  lemma TraceFirstMove(energy: seq<seq<int>>, height: int, width: int, move: Move, rest: seq<Move>, h: int, w: int)
    requires Grid(energy, height, width) && 1 <= h < height && 0 <= w < width && |rest| == h - 1
    ensures TraceCost(energy, height, width, [move] + rest, h, w) ==
      MoveCost(energy, height, width, h, w, move) + TraceCost(energy, height, width, rest, h - 1, Source(w, width, move))
  {
    assert ([move] + rest)[1..] == rest;
  }

  /** The path of winning moves from (h, w) back to row 0. */
  ghost function BestMoves(energy: seq<seq<int>>, height: int, width: int, h: int, w: int): (moves: seq<Move>)
    requires Grid(energy, height, width) && 0 <= h < height && 0 <= w < width
    ensures |moves| == h
    decreases h
  {
    if h == 0 then []
    else [BestMove(energy, height, width, h, w)] +
         BestMoves(energy, height, width, h - 1, Source(w, width, BestMove(energy, height, width, h, w)))
  }

  /** No path from row 0 into (h, w) costs less than `minimums[h][w]`. */
  lemma {:induction false} MinCostIsLowerBound(energy: seq<seq<int>>, height: int, width: int, moves: seq<Move>, h: int, w: int)
    requires Grid(energy, height, width) && 0 <= h < height && 0 <= w < width && |moves| == h
    ensures MinCost(energy, height, width, h, w) <= TraceCost(energy, height, width, moves, h, w)
    decreases h
  {
    if h > 0 {
      MinCostIsLowerBound(energy, height, width, moves[1..], h - 1, Source(w, width, moves[0]));
      MinCostRecurrence(energy, height, width, h, w);
    }
  }

  /** Following the winning moves back to row 0 costs exactly `minimums[h][w]`. */
  lemma {:induction false} BestMovesAttainMinCost(energy: seq<seq<int>>, height: int, width: int, h: int, w: int)
    requires Grid(energy, height, width) && 0 <= h < height && 0 <= w < width
    ensures TraceCost(energy, height, width, BestMoves(energy, height, width, h, w), h, w) == MinCost(energy, height, width, h, w)
    decreases h
  {
    if h > 0 {
      var move := BestMove(energy, height, width, h, w);
      var src := Source(w, width, move);
      var moves := BestMoves(energy, height, width, h, w);
      var rest := BestMoves(energy, height, width, h - 1, src);
      assert moves == [move] + rest;
      calc {
        TraceCost(energy, height, width, moves, h, w);
        { TraceFirstMove(energy, height, width, move, rest, h, w); }
        MoveCost(energy, height, width, h, w, move) + TraceCost(energy, height, width, rest, h - 1, src);
        { BestMovesAttainMinCost(energy, height, width, h - 1, src); }
        MoveCost(energy, height, width, h, w, move) + MinCost(energy, height, width, h - 1, src);
        Transition(energy, height, width, h, w) + MinCost(energy, height, width, h - 1, src);
        { MinCostAttained(energy, height, width, h, w); }
        MinCost(energy, height, width, h, w);
      }
    }
  }

  /** Scenario: in the row `[0, 10, 20]` the up-costs wrap around both ends, giving `[10, 20, 10]`. */
  lemma RowZeroWrapExample()
    ensures Left(0, 3) == 2 && Right(2, 3) == 0
    ensures [CostUp(OneRow, 3, 0, 0), CostUp(OneRow, 3, 0, 1), CostUp(OneRow, 3, 0, 2)] == [10, 20, 10]
  {
    assert Left(0, 3) == 2 && Right(0, 3) == 1;
    assert Left(1, 3) == 0 && Right(1, 3) == 2;
    assert Left(2, 3) == 1 && Right(2, 3) == 0;
  }

  const OneRow: seq<seq<int>> := [[0, 10, 20]]
}
