/**
 * The backward-energy cost map (SeamCarverBackward.energyMap): the bottom
 * row costs its own energy, and every cell above costs its energy plus the
 * cheapest of the up-to-three cells below it, clipped at the image edges.
 * The cost of a cell is thereby the least total energy of a seam running
 * from it to the bottom row, and the seam the carver walks down a freshly
 * computed map is a cheapest seam of the whole image.
 */
module BackwardEnergy {
  import opened Utils
  import opened Seams

  /** At least `height` energy rows, the first `height` of which hold `width >= 2` values. */
  ghost predicate Grid(energy: seq<seq<int>>, height: int, width: int)
  {
    1 <= height <= |energy| && 2 <= width && forall h | 0 <= h < height :: |energy[h]| == width
  }

  /** `map[h][w]` as SeamCarverBackward.energyMap computes it. */
  ghost function Cost(energy: seq<seq<int>>, height: int, width: int, h: int, w: int): int
    requires Grid(energy, height, width) && 0 <= h < height && 0 <= w < width
    decreases height - h
  {
    if h == height - 1 then
      energy[h][w]
    else if w == 0 then
      energy[h][0] + Min(Cost(energy, height, width, h + 1, 0), Cost(energy, height, width, h + 1, 1))
    else if w == width - 1 then
      energy[h][w] + Min(Cost(energy, height, width, h + 1, w - 1), Cost(energy, height, width, h + 1, w))
    else
      energy[h][w] + Min3(Cost(energy, height, width, h + 1, w - 1), Cost(energy, height, width, h + 1, w),
                          Cost(energy, height, width, h + 1, w + 1))
  }

  /** The first `width` columns of every row of `m` hold the backward costs. */
  ghost predicate HoldsCosts(m: seq<seq<int>>, energy: seq<seq<int>>, height: int, width: int)
  {
    && Grid(energy, height, width)
    && |m| == height
    && (forall h | 0 <= h < height :: |m[h]| >= width)
    && (forall h, w | 0 <= h < height && 0 <= w < width :: m[h][w] == Cost(energy, height, width, h, w))
  }

  /**
   * The recurrence read as a minimum: a cell of row `h - 1` costs its energy
   * plus at most the cost of every column of row `h` at most one away, and
   * exactly the cost of the column the seam walk steps to.
   */
  lemma CostRecurrence(m: seq<seq<int>>, energy: seq<seq<int>>, height: int, width: int, h: int, w: int)
    requires HoldsCosts(m, energy, height, width) && 1 <= h < height && 0 <= w < width
    ensures forall k | 0 <= k < width && -1 <= k - w <= 1 ::
      Cost(energy, height, width, h - 1, w) <= energy[h - 1][w] + Cost(energy, height, width, h, k)
    ensures Cost(energy, height, width, h - 1, w) == energy[h - 1][w] + Cost(energy, height, width, h, Step(m[h], w, width))
  {
    StepPicksFirstCheapest(m[h], w, width);
    var r := Step(m[h], w, width);
    assert m[h][r] == Cost(energy, height, width, h, r);
    forall k | 0 <= k < width && -1 <= k - w <= 1
      ensures Cost(energy, height, width, h - 1, w) <= energy[h - 1][w] + Cost(energy, height, width, h, k)
    {
      CandidatesAreNeighbours(w, width, k);
    }
  }

  /** With non-negative energies (as the gradient energy is) no cell costs less than its own energy. */
  lemma {:induction false} CostAtLeastEnergy(energy: seq<seq<int>>, height: int, width: int, h: int, w: int)
    requires Grid(energy, height, width) && 0 <= h < height && 0 <= w < width
    requires forall i, j | 0 <= i < height && 0 <= j < width :: energy[i][j] >= 0
    ensures Cost(energy, height, width, h, w) >= energy[h][w] >= 0
    decreases height - h
  {
    if h < height - 1 {
      var below := h + 1;
      forall k | 0 <= k < width ensures Cost(energy, height, width, below, k) >= 0 {
        CostAtLeastEnergy(energy, height, width, below, k);
      }
    }
  }

  /** Total energy of the seam `p` from row `h` down. */
  ghost function PathCost(energy: seq<seq<int>>, p: seq<int>, h: int): int
    requires 0 <= h <= |p| <= |energy| && forall k | 0 <= k < |p| :: 0 <= p[k] < |energy[k]|
    decreases |p| - h
  {
    if h == |p| then 0 else energy[h][p[h]] + PathCost(energy, p, h + 1)
  }

  /** `p` is a seam of the grid and no seam of the grid has a smaller total energy. */
  ghost predicate CheapestSeam(energy: seq<seq<int>>, height: int, width: int, p: seq<int>)
  {
    && Grid(energy, height, width) && IsSeam(p, height, width)
    && forall s | IsSeam(s, height, width) :: PathCost(energy, p, 0) <= PathCost(energy, s, 0)
  }

  /** No seam from (h, s[h]) down costs less than the map says. */
  lemma {:induction false} CostIsLowerBound(energy: seq<seq<int>>, height: int, width: int, s: seq<int>, h: int)
    requires Grid(energy, height, width) && IsSeam(s, height, width) && 0 <= h < height
    ensures Cost(energy, height, width, h, s[h]) <= PathCost(energy, s, h)
    decreases height - h
  {
    if h < height - 1 {
      CostIsLowerBound(energy, height, width, s, h + 1);
      assert -1 <= s[h + 1] - s[h] <= 1;
    }
  }

  /** The seam walked down a map of backward costs costs exactly what the map says at each of its cells. */
  lemma {:induction false} WalkAttainsCost(m: seq<seq<int>>, energy: seq<seq<int>>, height: int, width: int, p: seq<int>, h: int)
    requires HoldsCosts(m, energy, height, width) && Selects(m, width, p) && 0 <= h < height
    ensures IsSeam(p, height, width)
    ensures PathCost(energy, p, h) == Cost(energy, height, width, h, p[h])
    decreases height - h
  {
    SelectedIsSeam(m, width, p);
    if h < height - 1 {
      WalkAttainsCost(m, energy, height, width, p, h + 1);
      assert StepsDown(m, width, p, h + 1);
      CostRecurrence(m, energy, height, width, h + 1, p[h]);
    }
  }

  /**
   * On a freshly computed backward map, the seam `remove` selects costs
   * `map[0][path[0]]`, the least value of row 0, and no seam of the image
   * has a smaller total energy.
   */
  lemma SelectedSeamIsCheapest(m: seq<seq<int>>, energy: seq<seq<int>>, height: int, width: int, p: seq<int>)
    requires HoldsCosts(m, energy, height, width) && Selects(m, width, p)
    ensures IsSeam(p, height, width)
    ensures PathCost(energy, p, 0) == m[0][p[0]]
    ensures forall w | 0 <= w < width :: m[0][p[0]] <= m[0][w]
    ensures forall s | IsSeam(s, height, width) :: PathCost(energy, p, 0) <= PathCost(energy, s, 0)
  {
    WalkAttainsCost(m, energy, height, width, p, 0);
    forall s | IsSeam(s, height, width) ensures PathCost(energy, p, 0) <= PathCost(energy, s, 0) {
      CostIsLowerBound(energy, height, width, s, 0);
      assert m[0][s[0]] == Cost(energy, height, width, 0, s[0]);
    }
  }

  /** Scenario: energies `[[1, 2, 3], [4, 5, 6]]` give the cost rows `[5, 6, 8]` and `[4, 5, 6]`. */
  lemma TwoRowExample()
    ensures Grid(TwoRows, 2, 3)
    ensures [Cost(TwoRows, 2, 3, 1, 0), Cost(TwoRows, 2, 3, 1, 1), Cost(TwoRows, 2, 3, 1, 2)] == [4, 5, 6]
    ensures [Cost(TwoRows, 2, 3, 0, 0), Cost(TwoRows, 2, 3, 0, 1), Cost(TwoRows, 2, 3, 0, 2)] == [5, 6, 8]
  {
  }

  const TwoRows: seq<seq<int>> := [[1, 2, 3], [4, 5, 6]]
}
