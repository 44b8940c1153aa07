/**
 * The seam carver (SeamCarverBase with its two energy models,
 * SeamCarverBackward and SeamCarverForward). It holds an image as rows of
 * packed pixels and an energy grid of the same shape. It narrows both by
 * removing a seam (one pixel per row, neighbouring rows at most one column
 * apart) and widens them again by re-inserting the most recently removed
 * seam from an undo stack. It keeps a cost map for choosing seams and a
 * flat, row-major display buffer.
 */
module Carver {
  import opened Utils
  import opened Seams
  import BackwardEnergy
  import ForwardEnergy

  /** How the cost map is derived from the energy grid. */
  datatype EnergyModel = Backward | Forward

  function Last<T>(s: seq<T>): T
    requires |s| > 0
  {
    s[|s| - 1]
  }

  // ----- The display buffer -----

  /** The rows laid end to end: the row-major layout of the display buffer. */
  ghost function Flatten(rows: seq<seq<int>>): seq<int>
    decreases |rows|
  {
    if rows == [] then [] else Flatten(rows[..|rows| - 1]) + rows[|rows| - 1]
  }

  lemma MulMonotone(a: int, b: int, c: int)
    requires 0 <= a <= b && 0 <= c
    ensures 0 <= a * c <= b * c
  {
    assert b * c == a * c + (b - a) * c;
  }

  /** Row `h` of a `height x width` row-major layout sits inside a buffer of `height * capacity` cells. */
  lemma RowSpan(h: int, height: int, width: int, capacity: int)
    requires 0 <= h <= height && 0 <= width <= capacity
    ensures 0 <= h * width <= height * width <= height * capacity
    ensures h < height ==> (h + 1) * width == h * width + width <= height * width
  {
    MulMonotone(h, height, width);
    MulMonotone(width, capacity, height);
    if h < height {
      MulMonotone(h + 1, height, width);
    }
  }

  /** In the row-major layout, cell (h, w) of a `height x width` grid is at `h * width + w`. */
  lemma {:induction false} FlattenCell(rows: seq<seq<int>>, height: int, width: int, h: int, w: int)
    requires Shaped(rows, height, width) && 0 <= h < height && 0 <= w < width
    ensures |Flatten(rows)| == height * width
    ensures 0 <= h * width + w < height * width
    ensures Flatten(rows)[h * width + w] == rows[h][w]
    decreases height
  {
    var init := rows[..height - 1];
    FlattenLength(rows, height, width);
    FlattenLength(init, height - 1, width);
    assert Flatten(rows) == Flatten(init) + rows[height - 1];
    RowSpan(h, height, width, width);
    if h < height - 1 {
      FlattenCell(init, height - 1, width, h, w);
      RowSpan(h, height - 1, width, width);
    }
  }

  lemma {:induction false} FlattenLength(rows: seq<seq<int>>, height: int, width: int)
    requires Shaped(rows, height, width)
    ensures |Flatten(rows)| == height * width
    decreases height
  {
    if height > 0 {
      FlattenLength(rows[..height - 1], height - 1, width);
      assert (height - 1) * width + width == height * width;
    }
  }

  /** A prefix of an extension of `a` as long as `a` is `a` itself. */
  lemma PrefixOfExtension<T>(a: seq<T>, b: seq<T>, c: seq<T>)
    requires |a| <= |b| <= |c| && b[..|a|] == a && c[..|b|] == b
    ensures c[..|a|] == a
  {
    assert c[..|a|] == c[..|b|][..|a|];
  }

  /**
   * A buffer that showed rows `..h` in its first `lo` cells, kept them, and
   * now holds row `h` in the `width` cells after them, shows rows `..h + 1`.
   */
  lemma ShowsNextRow(before: seq<int>, after: seq<int>, rows: seq<seq<int>>, h: int, lo: int, width: int)
    requires 0 <= h < |rows| && 0 <= lo && 0 <= width && lo + width <= |before| == |after|
    requires before[..lo] == Flatten(rows[..h])
    requires forall i | 0 <= i < lo :: after[i] == before[i]
    requires after[lo..lo + width] == rows[h]
    ensures after[..lo + width] == Flatten(rows[..h + 1])
  {
    assert rows[..h + 1][..h] == rows[..h];
    assert after[..lo + width] == before[..lo] + after[lo..lo + width];
  }

  /** The row with the cells of columns `[lo, hi)` set to `color`. */
  ghost function Painted(row: seq<int>, lo: int, hi: int, color: int): seq<int>
  {
    seq(|row|, w requires 0 <= w < |row| => if lo <= w < hi then color else row[w])
  }

  /** The rows with the cells at most one column from the path painted `color`. */
  ghost function Highlighted(rows: seq<seq<int>>, path: seq<int>, color: int): seq<seq<int>>
  {
    seq(|rows|, h requires 0 <= h < |rows| => if h < |path| then Painted(rows[h], path[h] - 1, path[h] + 2, color) else rows[h])
  }

  /**
   * The highlighted view differs from the image exactly at the cells at
   * most one column from the path, which show `color`.
   */
  lemma HighlightedCells(rows: seq<seq<int>>, path: seq<int>, color: int)
    requires |path| == |rows|
    ensures |Highlighted(rows, path, color)| == |rows|
    ensures forall h | 0 <= h < |rows| :: |Highlighted(rows, path, color)[h]| == |rows[h]|
    ensures forall h, w | 0 <= h < |rows| && 0 <= w < |rows[h]| ::
      Highlighted(rows, path, color)[h][w] == if -1 <= w - path[h] <= 1 then color else rows[h][w]
  {
  }

  // ----- The undo chain -----

  /**
   * Undo record `k`: `snaps[k]` is the image before the `k`-th removal,
   * `capacity - k` columns wide; `seams[k]` is a seam of it; `values[k]`
   * are the pixels it held, and removing it gives `snaps[k + 1]`.
   */
  ghost predicate Recorded(snaps: seq<seq<seq<int>>>, seams: seq<seq<int>>, values: seq<seq<int>>,
                           height: int, capacity: int, k: int)
    requires |snaps| == |seams| + 1 && |values| == |seams| && 0 <= k < |seams|
  {
    && Shaped(snaps[k], height, capacity - k)
    && IsSeam(seams[k], height, capacity - k)
    && values[k] == SeamValues(snaps[k], seams[k])
    && snaps[k + 1] == RemoveSeam(snaps[k], seams[k])
  }

  /**
   * The images before each removal (`history`), followed by the current
   * image, run from `original` down the recorded seams.
   */
  ghost predicate UndoChain(original: seq<seq<int>>, history: seq<seq<seq<int>>>, image: seq<seq<int>>,
                            seams: seq<seq<int>>, values: seq<seq<int>>, height: int, capacity: int)
  {
    && |history| == |seams|
    && |values| == |seams|
    && (history + [image])[0] == original
    && forall k | 0 <= k < |seams| :: Recorded(history + [image], seams, values, height, capacity, k)
  }

  /** A removal extends the chain by one record. */
  lemma PushExtendsChain(original: seq<seq<int>>, history: seq<seq<seq<int>>>, image: seq<seq<int>>,
                         seams: seq<seq<int>>, values: seq<seq<int>>, height: int, capacity: int, p: seq<int>)
    requires UndoChain(original, history, image, seams, values, height, capacity)
    requires Shaped(image, height, capacity - |seams|) && IsSeam(p, height, capacity - |seams|)
    ensures FitsRows(image, p)
    ensures UndoChain(original, history + [image], RemoveSeam(image, p), seams + [p], values + [SeamValues(image, p)], height, capacity)
  {
    var snaps := history + [image];
    var snaps' := history + [image] + [RemoveSeam(image, p)];
    var seams', values' := seams + [p], values + [SeamValues(image, p)];
    forall k | 0 <= k < |seams'| ensures Recorded(snaps', seams', values', height, capacity, k) {
      if k < |seams| {
        assert Recorded(snaps, seams, values, height, capacity, k);
        assert snaps'[k] == snaps[k] && snaps'[k + 1] == snaps[k + 1];
      }
    }
    assert (history + [image] + [RemoveSeam(image, p)])[0] == snaps[0];
  }

  /**
   * Re-inserting the last record's pixels at its seam gives back the image
   * it was removed from, and the chain without that record still holds.
   */
  lemma PopRestoresSnapshot(original: seq<seq<int>>, history: seq<seq<seq<int>>>, image: seq<seq<int>>,
                            seams: seq<seq<int>>, values: seq<seq<int>>, height: int, capacity: int)
    requires UndoChain(original, history, image, seams, values, height, capacity) && |seams| > 0
    ensures IsSeam(Last(seams), height, capacity - |seams| + 1)
    ensures Shaped(Last(history), height, capacity - |seams| + 1)
    ensures |Last(values)| == height
    ensures FitsGaps(image, Last(seams))
    ensures InsertSeam(image, Last(seams), Last(values)) == Last(history)
    ensures UndoChain(original, history[..|seams| - 1], Last(history), seams[..|seams| - 1], values[..|seams| - 1], height, capacity)
  {
    var n := |seams|;
    var snaps := history + [image];
    assert Recorded(snaps, seams, values, height, capacity, n - 1);
    RemoveSeamShape(history[n - 1], seams[n - 1], height, capacity - n + 1);
    InsertUndoesRemove(history[n - 1], seams[n - 1]);
    var snaps' := history[..n - 1] + [history[n - 1]];
    assert snaps' == history;
    var seams', values' := seams[..n - 1], values[..n - 1];
    forall k | 0 <= k < n - 1 ensures Recorded(snaps', seams', values', height, capacity, k) {
      assert Recorded(snaps, seams, values, height, capacity, k);
    }
  }

  // ----- The energy records -----

  /**
   * Energy records `from..` chain: `grids[k]` is the energy grid before
   * removal `k`, `vs[k]` the energies that removal took out along `ps[k]`,
   * and removing it gives `grids[k + 1]`. Unlike the image chain this one
   * can start at any record, since `setEnergy` may change the grid between
   * removals.
   */
  ghost predicate Cuts(grids: seq<seq<seq<int>>>, ps: seq<seq<int>>, vs: seq<seq<int>>, from: int)
  {
    && |grids| == |ps| + 1 && |vs| == |ps| && 0 <= from <= |ps|
    && forall k | from <= k < |ps| ::
         && FitsRows(grids[k], ps[k])
         && vs[k] == SeamValues(grids[k], ps[k])
         && grids[k + 1] == RemoveSeam(grids[k], ps[k])
  }

  /** Re-inserts `v` along `p` when it fits (every call below fits). */
  ghost function PasteOne(rows: seq<seq<int>>, p: seq<int>, v: seq<int>): seq<seq<int>>
  {
    if FitsGaps(rows, p) && |v| == |p| then InsertSeam(rows, p, v) else rows
  }

  /** The grid after re-inserting records `|ps| - 1` down to `from` into `rows`, the most recent first. */
  ghost function PasteBack(rows: seq<seq<int>>, ps: seq<seq<int>>, vs: seq<seq<int>>, from: int): seq<seq<int>>
    requires 0 <= from <= |ps| == |vs|
    decreases |ps| - from
  {
    if from == |ps| then rows else PasteOne(PasteBack(rows, ps, vs, from + 1), ps[from], vs[from])
  }

  /** Re-inserting the records of an energy chain, most recent first, gives back the grid it started from. */
  lemma {:induction false} PasteBackUndoesCuts(grids: seq<seq<seq<int>>>, ps: seq<seq<int>>, vs: seq<seq<int>>, from: int)
    requires Cuts(grids, ps, vs, from)
    ensures PasteBack(Last(grids), ps, vs, from) == grids[from]
    decreases |ps| - from
  {
    if from < |ps| {
      PasteBackUndoesCuts(grids, ps, vs, from + 1);
      InsertUndoesRemove(grids[from], ps[from]);
    }
  }

  /** Re-inserting records `from..` of `ps` into what re-inserting records `n..` gave is re-inserting records `from..`. */
  lemma {:induction false} PasteBackComposes(rows: seq<seq<int>>, ps: seq<seq<int>>, vs: seq<seq<int>>, n: int, from: int)
    requires 0 <= from <= n <= |ps| == |vs|
    ensures PasteBack(PasteBack(rows, ps, vs, n), ps[..n], vs[..n], from) == PasteBack(rows, ps, vs, from)
    decreases n - from
  {
    if from < n {
      PasteBackComposes(rows, ps, vs, n, from + 1);
    }
  }

  // ----- Batches of removals and insertions -----

  /**
   * The undo stacks, with the image and energy snapshots they lead back
   * through and the cost map each recorded seam was selected from.
   */
  datatype Undo = Undo(seams: seq<seq<int>>, values: seq<seq<int>>, energyValues: seq<seq<int>>,
                       snapshots: seq<seq<seq<int>>>, energySnapshots: seq<seq<seq<int>>>,
                       maps: seq<seq<seq<int>>>)

  ghost predicate WellSized(u: Undo)
  {
    && |u.values| == |u.seams| && |u.energyValues| == |u.seams| && |u.maps| == |u.seams|
    && |u.snapshots| == |u.seams| + 1 && |u.energySnapshots| == |u.seams| + 1
  }

  /**
   * `u` is `u0` with records pushed on top: `u0`'s records and snapshots
   * are kept below them, and the new energy records chain down from
   * `u0`'s energy grid.
   */
  ghost predicate Pushed(u0: Undo, u: Undo)
  {
    var n := |u0.seams|;
    && WellSized(u0) && WellSized(u) && n <= |u.seams|
    && u.seams[..n] == u0.seams && u.values[..n] == u0.values && u.energyValues[..n] == u0.energyValues
    && u.snapshots[..n + 1] == u0.snapshots && u.energySnapshots[..n + 1] == u0.energySnapshots
    && u.maps[..n] == u0.maps
    && Cuts(u.energySnapshots, u.seams, u.energyValues, n)
  }

  /** `m` is the cost map `energyMap` of `model` computes from `energy`. */
  ghost predicate CostsOf(model: EnergyModel, m: seq<seq<int>>, energy: seq<seq<int>>, height: int, width: int)
  {
    match model
    case Backward => BackwardEnergy.HoldsCosts(m, energy, height, width)
    case Forward => ForwardEnergy.HoldsTransitions(m, energy, height, width)
  }

  /**
   * Records `from..` of `u` are the seams successive calls of `remove`
   * selected: record `k` was taken from an image `capacity - k` columns
   * wide, its seam is the one `Selects` gives on the cost map `maps[k]`,
   * and every map after the first is the one the previous call computed
   * from the energy grid it left.
   */
  ghost predicate Greedy(u: Undo, model: EnergyModel, height: int, capacity: int, from: int)
  {
    && |u.maps| == |u.seams| && |u.energySnapshots| == |u.seams| + 1 && 0 <= from <= |u.seams|
    && (forall k | from <= k < |u.seams| :: Selects(u.maps[k], capacity - k, u.seams[k]))
    && (forall k | from < k < |u.seams| :: CostsOf(model, u.maps[k], u.energySnapshots[k], height, capacity - k))
  }

  /** One more push of a seam selected from a map computed as `energyMap` does keeps the batch greedy. */
  lemma GreedyExtends(u0: Undo, u1: Undo, model: EnergyModel, height: int, capacity: int, from: int)
    requires Greedy(u0, model, height, capacity, from) && WellSized(u1) && |u1.seams| == |u0.seams| + 1
    requires u1.seams[..|u0.seams|] == u0.seams && u1.maps[..|u0.seams|] == u0.maps
    requires u1.energySnapshots[..|u0.seams| + 1] == u0.energySnapshots
    requires Selects(Last(u1.maps), capacity - |u0.seams|, Last(u1.seams))
    requires from < |u0.seams| ==> CostsOf(model, Last(u1.maps), u1.energySnapshots[|u0.seams|], height, capacity - |u0.seams|)
    ensures Greedy(u1, model, height, capacity, from)
  {
    var n := |u0.seams|;
    forall k | from <= k < |u1.seams|
      ensures Selects(u1.maps[k], capacity - k, u1.seams[k])
      ensures k > from ==> CostsOf(model, u1.maps[k], u1.energySnapshots[k], height, capacity - k)
    {
      if k < n {
        assert u1.maps[k] == u0.maps[k] && u1.seams[k] == u0.seams[k];
        assert u1.energySnapshots[k] == u0.energySnapshots[k];
      }
    }
  }

  /**
   * One more removal in a batch: the seam selected on map `m` of the
   * energy grid `e` it was cut from is pushed on the stacks of the batch
   * so far, which stay a greedy push from the batch's starting stacks.
   */
  lemma BatchStep(u0: Undo, u1: Undo, u2: Undo, model: EnergyModel, height: int, capacity: int, m: seq<seq<int>>, e: seq<seq<int>>)
    requires Pushed(u0, u1) && Greedy(u1, model, height, capacity, |u0.seams|)
    requires Pushed(u1, u2) && |u2.seams| == |u1.seams| + 1
    requires Last(u2.maps) == m && u2.energySnapshots[|u1.seams|] == e
    requires Selects(m, capacity - |u1.seams|, Last(u2.seams))
    requires |u1.seams| > |u0.seams| ==> CostsOf(model, m, e, height, capacity - |u1.seams|)
    ensures Pushed(u0, u2) && Greedy(u2, model, height, capacity, |u0.seams|)
  {
    PushedTransitive(u0, u1, u2);
    GreedyExtends(u1, u2, model, height, capacity, |u0.seams|);
  }

  /**
   * In the backward model every record of a greedy batch after the first
   * is a cheapest seam of the energy grid it was cut from.
   */
  lemma GreedyBackwardIsCheapest(u: Undo, height: int, capacity: int, from: int, k: int)
    requires Greedy(u, Backward, height, capacity, from) && from < k < |u.seams|
    ensures BackwardEnergy.CheapestSeam(u.energySnapshots[k], height, capacity - k, u.seams[k])
  {
    assert CostsOf(Backward, u.maps[k], u.energySnapshots[k], height, capacity - k);
    BackwardEnergy.SelectedSeamIsCheapest(u.maps[k], u.energySnapshots[k], height, capacity - k, u.seams[k]);
  }

  /**
   * `u` is `u0` with its top records popped: the records and image
   * snapshots left are `u0`'s, and the energy grid is `u0`'s with the
   * popped energies re-inserted, the most recent first.
   */
  ghost predicate Popped(u0: Undo, u: Undo)
  {
    var n := |u.seams|;
    && WellSized(u0) && WellSized(u) && n <= |u0.seams|
    && u.seams == u0.seams[..n] && u.values == u0.values[..n] && u.energyValues == u0.energyValues[..n]
    && u.snapshots == u0.snapshots[..n + 1] && u.energySnapshots[..n] == u0.energySnapshots[..n]
    && u.maps == u0.maps[..n]
    && Last(u.energySnapshots) == PasteBack(Last(u0.energySnapshots), u0.seams, u0.energyValues, n)
  }

  lemma PushedTransitive(u0: Undo, u1: Undo, u2: Undo)
    requires Pushed(u0, u1) && Pushed(u1, u2)
    ensures Pushed(u0, u2)
  {
    var n0, n1 := |u0.seams|, |u1.seams|;
    PrefixOfExtension(u0.seams, u1.seams, u2.seams);
    PrefixOfExtension(u0.values, u1.values, u2.values);
    PrefixOfExtension(u0.energyValues, u1.energyValues, u2.energyValues);
    PrefixOfExtension(u0.snapshots, u1.snapshots, u2.snapshots);
    PrefixOfExtension(u0.energySnapshots, u1.energySnapshots, u2.energySnapshots);
    PrefixOfExtension(u0.maps, u1.maps, u2.maps);
    forall k | n0 <= k < |u2.seams|
      ensures FitsRows(u2.energySnapshots[k], u2.seams[k])
      ensures u2.energyValues[k] == SeamValues(u2.energySnapshots[k], u2.seams[k])
      ensures u2.energySnapshots[k + 1] == RemoveSeam(u2.energySnapshots[k], u2.seams[k])
    {
      if k < n1 {
        assert u2.energySnapshots[k] == u1.energySnapshots[k] && u2.energySnapshots[k + 1] == u1.energySnapshots[k + 1];
        assert u2.seams[k] == u1.seams[k] && u2.energyValues[k] == u1.energyValues[k];
      }
    }
  }

  lemma PoppedTransitive(u0: Undo, u1: Undo, u2: Undo)
    requires Popped(u0, u1) && Popped(u1, u2)
    ensures Popped(u0, u2)
  {
    var n1, n2 := |u1.seams|, |u2.seams|;
    assert u2.energySnapshots[..n2] == u1.energySnapshots[..n1][..n2];
    PasteBackComposes(Last(u0.energySnapshots), u0.seams, u0.energyValues, n1, n2);
  }

  /**
   * Pushing a batch of records and then popping as many gives back the
   * stacks, the snapshots and the energy grid exactly.
   */
  lemma PushedThenPopped(u0: Undo, u1: Undo, u2: Undo)
    requires Pushed(u0, u1) && Popped(u1, u2) && |u2.seams| == |u0.seams|
    ensures u2 == u0
  {
    var n := |u0.seams|;
    PasteBackUndoesCuts(u1.energySnapshots, u1.seams, u1.energyValues, n);
    assert u0.energySnapshots[..n] == u1.energySnapshots[..n];
    assert u2.energySnapshots == u2.energySnapshots[..n] + [Last(u2.energySnapshots)];
    assert u0.energySnapshots == u0.energySnapshots[..n] + [u0.energySnapshots[n]];
  }

  // ----- The carver -----

  class SeamCarver {
    const model: EnergyModel
    const height: int
    /** The width the carver was built with: the column count of `costMap` and `minimums`, and of `data` per row. */
    const capacity: int
    var width: int
    /** Whether removals and insertions refresh the display buffer. */
    var update: bool
    /** The undo stacks, oldest record first: removed seams, their pixels, their energies. */
    var seams: seq<seq<int>>
    var values: seq<seq<int>>
    var energyValues: seq<seq<int>>
    var image: seq<seq<int>>
    var energy: seq<seq<int>>
    /** The display buffer: its first `height * width` cells show the image row by row. */
    const data: array<int>
    const costMap: array2<int>
    /** The forward model's accumulated minimums; empty for the backward model. */
    const minimums: array2<int>
    /** The image as it was before each recorded removal. */
    ghost var history: seq<seq<seq<int>>>
    ghost const original: seq<seq<int>>
    /** The energy grid as it was before each recorded removal. */
    ghost var energyHistory: seq<seq<seq<int>>>
    /** The cost map each recorded seam was selected from. */
    ghost var mapHistory: seq<seq<seq<int>>>

    ghost predicate Sized()
      reads this
    {
      && 1 <= height && 2 <= width <= capacity
      && data.Length == height * capacity
      && costMap.Length0 == height && costMap.Length1 == capacity
      && (if model.Forward? then minimums.Length0 == height && minimums.Length1 == capacity
          else minimums.Length0 == 0 && minimums.Length1 == 0)
      && costMap != minimums
    }

    /** The backward energy has two extra, empty rows below the image (Utils.sobel); the forward one has none. */
    ghost predicate EnergyShaped()
      reads this
    {
      && |energy| == (if model.Backward? then height + 2 else height)
      && (forall h | 0 <= h < height :: |energy[h]| == width)
      && (forall h | 0 <= h < |energy| && h >= height :: energy[h] == [])
    }

    ghost predicate Valid()
      reads this
    {
      && Sized()
      && Shaped(image, height, width)
      && EnergyShaped()
      && width + |seams| == capacity
      && |energyValues| == |seams| && |energyHistory| == |seams| && |mapHistory| == |seams|
      && (forall k | 0 <= k < |energyValues| :: |energyValues[k]| == height)
      && UndoChain(original, history, image, seams, values, height, capacity)
    }

    /** The images the undo stack leads back through, the constructed one first and the current one last. */
    ghost function Snapshots(): seq<seq<seq<int>>>
      reads this
    {
      history + [image]
    }

    /** The energy grids before each recorded removal, the current one last. */
    ghost function EnergySnapshots(): seq<seq<seq<int>>>
      reads this
    {
      energyHistory + [energy]
    }

    /** The undo stacks and the snapshots they lead back through. */
    ghost function Stacks(): Undo
      reads this
    {
      Undo(seams, values, energyValues, Snapshots(), EnergySnapshots(), mapHistory)
    }

    /** The current image is the last snapshot, and with an empty undo stack it is the constructed one. */
    lemma TopSnapshot()
      requires Valid()
      ensures |Snapshots()| == |seams| + 1 && Snapshots()[|seams|] == image
      ensures |seams| == 0 ==> image == original
    {
    }

    /** `costMap` (and `minimums`) hold what `energyMap` computes from the current energy grid. */
    ghost predicate MapIsCurrent()
      reads this, costMap, minimums
      requires Valid()
    {
      match model
      case Backward => BackwardEnergy.HoldsCosts(Rows(costMap), energy, height, width)
      case Forward => ForwardTables()
    }

    ghost predicate ForwardTables()
      reads this, costMap, minimums
      requires Valid() && model.Forward?
    {
      forall h, w | 0 <= h < height && 0 <= w < width ::
        && minimums[h, w] == ForwardEnergy.MinCost(energy, height, width, h, w)
        && costMap[h, w] == ForwardEnergy.Transition(energy, height, width, h, w)
    }

    /** A current cost map is the one `energyMap` computes from the energy grid. */
    lemma CurrentMap()
      requires Valid() && MapIsCurrent()
      ensures CostsOf(model, Rows(costMap), energy, height, width)
    {
    }

    /** The display buffer shows the image. */
    ghost predicate ShowsImage()
      reads this, data
      requires Sized()
    {
      RowSpan(height, height, width, capacity);
      data[..height * width] == Flatten(image)
    }

    /** The display buffer shows the image with the cells around `path` painted `color`. */
    ghost predicate ShowsSeam(path: seq<int>, color: int)
      reads this, data
      requires Sized()
    {
      RowSpan(height, height, width, capacity);
      data[..height * width] == Flatten(Highlighted(image, path, color))
    }

    // ----- Display refresh (SeamCarverBase.updateImage) -----

    /** Copies image row `h` to its place in the display buffer. */
    method CopyRow(h: int)
      requires Sized() && Shaped(image, height, width) && 0 <= h < height
      modifies data
      ensures h * width + width <= data.Length
      ensures data[h * width..h * width + width] == image[h]
      ensures forall i | 0 <= i < data.Length && !(h * width <= i < h * width + width) :: data[i] == old(data[i])
    {
      RowSpan(h, height, width, capacity);
      var base := h * width;
      var w := 0;
      while w < width
        invariant 0 <= w <= width
        invariant data[base..base + w] == image[h][..w]
        invariant forall i | 0 <= i < data.Length && !(base <= i < base + w) :: data[i] == old(data[i])
      {
        data[base + w] := image[h][w];
        w := w + 1;
      }
    }

    /** Paints the cells of row `h` at columns `p - 1 .. p + 1` that lie inside the row. */
    method PaintAround(h: int, p: int, color: int)
      requires Sized() && Shaped(image, height, width) && 0 <= h < height
      requires h * width + width <= data.Length && data[h * width..h * width + width] == image[h]
      modifies data
      ensures data[h * width..h * width + width] == Painted(image[h], p - 1, p + 2, color)
      ensures forall i | 0 <= i < data.Length && !(h * width <= i < h * width + width) :: data[i] == old(data[i])
    {
      var base := h * width;
      var i := p - 1;
      while i <= p + 1
        invariant p - 1 <= i <= p + 2
        invariant data[base..base + width] == Painted(image[h], p - 1, i, color)
        invariant forall k | 0 <= k < data.Length && !(base <= k < base + width) :: data[k] == old(data[k])
      {
        if i < 0 || i >= width {
          i := i + 1;
          continue;
        }
        data[base + i] := color;
        i := i + 1;
      }
    }

    /**
     * Writes image row `h` to the display buffer, painting the cells around
     * column `p` when `paint` is set, so that the buffer shows `rows` up to
     * and including row `h`.
     */
    method ShowRow(h: int, ghost rows: seq<seq<int>>, paint: bool, p: int, color: int)
      requires Sized() && Shaped(image, height, width) && 0 <= h < height && |rows| == height
      requires rows[h] == if paint then Painted(image[h], p - 1, p + 2, color) else image[h]
      requires h * width <= data.Length && data[..h * width] == Flatten(rows[..h])
      modifies data
      ensures (h + 1) * width == h * width + width <= data.Length
      ensures data[..h * width + width] == Flatten(rows[..h + 1])
      ensures forall i | h * width + width <= i < data.Length :: data[i] == old(data[i])
    {
      ghost var before := data[..];
      RowSpan(h, height, width, capacity);
      CopyRow(h);
      if paint {
        PaintAround(h, p, color);
      }
      ShowsNextRow(before, data[..], rows, h, h * width, width);
    }

    /** `updateImage()`: writes every image row to the display buffer. */
    method UpdateImage()
      requires Sized() && Shaped(image, height, width)
      modifies data
      ensures ShowsImage()
      ensures forall i | height * width <= i < data.Length :: data[i] == old(data[i])
    {
      var h := 0;
      RowSpan(0, height, width, capacity);
      var base := 0;
      while h < height
        invariant 0 <= h <= height && base == h * width
        invariant 0 <= base <= data.Length
        invariant data[..base] == Flatten(image[..h])
        invariant forall i | base <= i < data.Length :: data[i] == old(data[i])
      {
        ShowRow(h, image, false, 0, 0);
        h, base := h + 1, base + width;
      }
      assert image[..height] == image;
    }

    /** `updateImage(path, color)`: as `updateImage()`, then paints the cells around the path. */
    method HighlightPath(path: seq<int>, color: int)
      requires Sized() && Shaped(image, height, width) && |path| == height
      modifies data
      ensures ShowsSeam(path, color)
      ensures forall i | height * width <= i < data.Length :: data[i] == old(data[i])
    {
      ghost var shown := Highlighted(image, path, color);
      var h := 0;
      RowSpan(0, height, width, capacity);
      var base := 0;
      while h < height
        invariant 0 <= h <= height && base == h * width
        invariant 0 <= base <= data.Length
        invariant data[..base] == Flatten(shown[..h])
        invariant forall i | base <= i < data.Length :: data[i] == old(data[i])
      {
        ShowRow(h, shown, true, path[h], color);
        h, base := h + 1, base + width;
      }
      assert shown[..height] == shown;
    }

    /** `updateImage(highlight, color)`: highlights the most recently removed seam, if asked and there is one. */
    method Refresh(highlight: bool, color: int)
      requires Valid()
      modifies data
      ensures highlight && |seams| > 0 ==> ShowsSeam(Last(seams), color)
      ensures !(highlight && |seams| > 0) ==> ShowsImage()
      ensures forall i | height * width <= i < data.Length :: data[i] == old(data[i])
    {
      if highlight && |seams| > 0 {
        assert Recorded(Snapshots(), seams, values, height, capacity, |seams| - 1);
        HighlightPath(Last(seams), color);
      } else {
        UpdateImage();
      }
    }
  
    // ----- The cost maps (energyMap) -----

    /** `energyMap` of the model in use. */
    method EnergyMap()
      requires Valid()
      modifies costMap, minimums
      ensures MapIsCurrent()
      ensures forall h, w | 0 <= h < height && width <= w < capacity :: costMap[h, w] == old(costMap[h, w])
    {
      match model {
        case Backward => BackwardMap();
        case Forward => ForwardMap();
      }
    }

    /** SeamCarverBackward.energyMap: the bottom row first, then each row above from the row below it. */
    method BackwardMap()
      requires Valid() && model.Backward?
      modifies costMap
      ensures BackwardEnergy.HoldsCosts(Rows(costMap), energy, height, width)
      ensures forall h, w | 0 <= h < height && width <= w < capacity :: costMap[h, w] == old(costMap[h, w])
    {
      var bottom := height - 1;
      var w := 0;
      while w < width
        invariant 0 <= w <= width
        invariant forall k | 0 <= k < w :: costMap[bottom, k] == BackwardEnergy.Cost(energy, height, width, bottom, k)
        invariant forall i, k | 0 <= i < height && 0 <= k < capacity && (i < bottom || k >= w) :: costMap[i, k] == old(costMap[i, k])
      {
        costMap[bottom, w] := energy[bottom][w];
        w := w + 1;
      }
      var h := height - 2;
      while h >= 0
        invariant -1 <= h <= height - 2
        invariant forall i, k | h < i < height && 0 <= k < width :: costMap[i, k] == BackwardEnergy.Cost(energy, height, width, i, k)
        invariant forall i, k | 0 <= i < height && 0 <= k < capacity && (i <= h || k >= width) :: costMap[i, k] == old(costMap[i, k])
      {
        BackwardRow(h);
        h := h - 1;
      }
    }

    /** One row of SeamCarverBackward.energyMap: each cell adds the cheapest of the up-to-three cells below. */
    method BackwardRow(h: int)
      requires Valid() && model.Backward? && 0 <= h < height - 1
      requires forall i, k | h < i < height && 0 <= k < width :: costMap[i, k] == BackwardEnergy.Cost(energy, height, width, i, k)
      modifies costMap
      ensures forall i, k | h <= i < height && 0 <= k < width :: costMap[i, k] == BackwardEnergy.Cost(energy, height, width, i, k)
      ensures forall i, k | 0 <= i < height && 0 <= k < capacity && (i != h || k >= width) :: costMap[i, k] == old(costMap[i, k])
    {
      var row := energy[h];
      var below := h + 1;
      costMap[h, 0] := row[0] + Min(costMap[below, 0], costMap[below, 1]);
      var w := 1;
      while w < width - 1
        invariant 1 <= w <= width - 1
        invariant forall k | 0 <= k < w :: costMap[h, k] == BackwardEnergy.Cost(energy, height, width, h, k)
        invariant forall i, k | 0 <= i < height && 0 <= k < capacity && (i != h || k >= w) :: costMap[i, k] == old(costMap[i, k])
      {
        costMap[h, w] := row[w] + Min3(costMap[below, w - 1], costMap[below, w], costMap[below, w + 1]);
        w := w + 1;
      }
      costMap[h, w] := row[w] + Min(costMap[below, w - 1], costMap[below, w]);
    }

    /** SeamCarverForward.energyMap: row 0 first, then each row below from the row above it. */
    method ForwardMap()
      requires Valid() && model.Forward?
      modifies costMap, minimums
      ensures ForwardTables()
      ensures forall h, w | 0 <= h < height && width <= w < capacity ::
        costMap[h, w] == old(costMap[h, w]) && minimums[h, w] == old(minimums[h, w])
    {
      var w := 0;
      while w < width
        invariant 0 <= w <= width
        invariant forall k | 0 <= k < w ::
          minimums[0, k] == ForwardEnergy.MinCost(energy, height, width, 0, k) && costMap[0, k] == ForwardEnergy.Transition(energy, height, width, 0, k)
        invariant forall i, k | 0 <= i < height && 0 <= k < capacity && (i > 0 || k >= w) ::
          costMap[i, k] == old(costMap[i, k]) && minimums[i, k] == old(minimums[i, k])
      {
        var left := Mod(w - 1, width);
        var right := Mod(w + 1, width);
        ForwardEnergy.NeighboursAreMod(w, width);
        var cU := Abs(energy[0][right] - energy[0][left]);
        minimums[0, w] := 0;
        costMap[0, w] := cU;
        w := w + 1;
      }
      var h := 1;
      while h < height
        invariant 1 <= h <= height
        invariant forall i, k | 0 <= i < h && 0 <= k < width ::
          minimums[i, k] == ForwardEnergy.MinCost(energy, height, width, i, k) && costMap[i, k] == ForwardEnergy.Transition(energy, height, width, i, k)
        invariant forall i, k | 0 <= i < height && 0 <= k < capacity && (i >= h || k >= width) ::
          costMap[i, k] == old(costMap[i, k]) && minimums[i, k] == old(minimums[i, k])
      {
        ForwardRow(h);
        h := h + 1;
      }
    }

    /** One row of SeamCarverForward.energyMap: the cheapest of the three entries, ties going up, then left. */
    method ForwardRow(h: int)
      requires Valid() && model.Forward? && 1 <= h < height
      requires forall i, k {:trigger minimums[i, k]} | 0 <= i < h && 0 <= k < width :: minimums[i, k] == ForwardEnergy.MinCost(energy, height, width, i, k)
      requires forall i, k {:trigger costMap[i, k]} | 0 <= i < h && 0 <= k < width :: costMap[i, k] == ForwardEnergy.Transition(energy, height, width, i, k)
      modifies costMap, minimums
      ensures forall i, k {:trigger minimums[i, k]} | 0 <= i <= h && 0 <= k < width :: minimums[i, k] == ForwardEnergy.MinCost(energy, height, width, i, k)
      ensures forall i, k {:trigger costMap[i, k]} | 0 <= i <= h && 0 <= k < width :: costMap[i, k] == ForwardEnergy.Transition(energy, height, width, i, k)
      ensures forall i, k | 0 <= i < height && 0 <= k < capacity && (i != h || k >= width) ::
        costMap[i, k] == old(costMap[i, k]) && minimums[i, k] == old(minimums[i, k])
    {
      var w := 0;
      while w < width
        invariant 0 <= w <= width
        invariant forall k | 0 <= k < w :: minimums[h, k] == ForwardEnergy.MinCost(energy, height, width, h, k)
        invariant forall k | 0 <= k < w :: costMap[h, k] == ForwardEnergy.Transition(energy, height, width, h, k)
        invariant forall i, k | 0 <= i < height && 0 <= k < capacity && (i != h || k >= w) ::
          costMap[i, k] == old(costMap[i, k]) && minimums[i, k] == old(minimums[i, k])
      {
        ForwardCell(h, w);
        w := w + 1;
      }
    }

    /** One cell of SeamCarverForward.energyMap: its accumulated minimum and winning transition cost. */
    method ForwardCell(h: int, w: int)
      requires Valid() && model.Forward? && 1 <= h < height && 0 <= w < width
      requires forall i, k {:trigger minimums[i, k]} | 0 <= i < h && 0 <= k < width :: minimums[i, k] == ForwardEnergy.MinCost(energy, height, width, i, k)
      modifies costMap, minimums
      ensures minimums[h, w] == ForwardEnergy.MinCost(energy, height, width, h, w)
      ensures costMap[h, w] == ForwardEnergy.Transition(energy, height, width, h, w)
      ensures forall i, k | 0 <= i < height && 0 <= k < capacity && (i != h || k != w) ::
        costMap[i, k] == old(costMap[i, k]) && minimums[i, k] == old(minimums[i, k])
    {
      var above := h - 1;
      var left := Mod(w - 1, width);
      var right := Mod(w + 1, width);
      ForwardEnergy.NeighboursAreMod(w, width);

      var cU := Abs(energy[h][right] - energy[h][left]);
      var cL := Abs(energy[above][w] - energy[h][left]) + cU;
      var cR := Abs(energy[above][w] - energy[h][right]) + cU;

      assert cU == ForwardEnergy.CostUp(energy, width, h, w);
      assert cL == ForwardEnergy.CostLeft(energy, width, h, w);
      assert cR == ForwardEnergy.CostRight(energy, width, h, w);

      var mU := minimums[above, w] + cU;
      var mL := minimums[above, left] + cL;
      var mR := minimums[above, right] + cR;
      assert mU == ForwardEnergy.MinCost(energy, height, width, above, w) + cU;
      assert mL == ForwardEnergy.MinCost(energy, height, width, above, left) + cL;
      assert mR == ForwardEnergy.MinCost(energy, height, width, above, right) + cR;

      var min := Min3(mU, mL, mR);
      var cMin;
      if min == mU {
        cMin := cU;
      } else if min == mL {
        cMin := cL;
      } else {
        cMin := cR;
      }
      minimums[h, w] := min;
      costMap[h, w] := cMin;
    }
  
    // ----- Removing and re-inserting seams (SeamCarverBase) -----

    /** The walk of `remove`: the first cheapest column of row 0, then one tie-broken step per row. */
    method SelectSeam() returns (path: seq<int>)
      requires Valid()
      ensures Selects(Rows(costMap), width, path)
    {
      ghost var m := Rows(costMap);
      var top := seq(costMap.Length1, k reads costMap requires 0 <= k < costMap.Length1 => costMap[0, k]);
      assert top == m[0];
      var minIndex := ArgMin(top, width);
      path := [minIndex];
      var h := 1;
      while h < height
        invariant 1 <= h <= height && |path| == h
        invariant minIndex == path[h - 1] && 0 <= minIndex < width
        invariant IsFirstMin(m[0], width, path[0])
        invariant forall k | 1 <= k < h :: StepsDown(m, width, path, k)
      {
        ghost var before := minIndex;
        if minIndex == 0 {
          minIndex := if Min(costMap[h, 0], costMap[h, 1]) == costMap[h, 0] then 0 else 1;
        } else if minIndex == width - 1 {
          var minValue := Min(costMap[h, width - 2], costMap[h, width - 1]);
          minIndex := if costMap[h, width - 2] == minValue then width - 2 else width - 1;
        } else {
          var minValue := Min3(costMap[h, minIndex - 1], costMap[h, minIndex], costMap[h, minIndex + 1]);
          if costMap[h, minIndex - 1] == minValue {
            minIndex := minIndex - 1;
          } else if costMap[h, minIndex + 1] == minValue {
            minIndex := minIndex + 1;
          }
        }
        assert minIndex == Step(m[h], before, width);
        StepPicksFirstCheapest(m[h], before, width);
        ghost var prev := path;
        path := path + [minIndex];
        forall k | 1 <= k <= h ensures StepsDown(m, width, path, k) {
          if k < h {
            assert StepsDown(m, width, prev, k);
          }
        }
        h := h + 1;
      }
    }

    /** Deletes the seam's pixel and energy from every row, returning what was deleted. */
    method CutSeam(path: seq<int>) returns (vals: seq<int>, evals: seq<int>)
      requires Valid() && IsSeam(path, height, width)
      modifies this`image, this`energy
      ensures FitsRows(old(image), path) && FitsRows(old(energy), path)
      ensures image == RemoveSeam(old(image), path) && energy == RemoveSeam(old(energy), path)
      ensures vals == SeamValues(old(image), path) && evals == SeamValues(old(energy), path)
    {
      vals, evals := [], [];
      var h := 0;
      while h < height
        invariant 0 <= h <= height
        invariant |image| == |old(image)| && |energy| == |old(energy)|
        invariant forall k | 0 <= k < h :: image[k] == RemoveAt(old(image)[k], path[k]) && energy[k] == RemoveAt(old(energy)[k], path[k])
        invariant forall k | h <= k < |image| :: image[k] == old(image)[k]
        invariant forall k | h <= k < |energy| :: energy[k] == old(energy)[k]
        invariant |vals| == h && forall k | 0 <= k < h :: vals[k] == old(image)[k][path[k]]
        invariant |evals| == h && forall k | 0 <= k < h :: evals[k] == old(energy)[k][path[k]]
      {
        vals := vals + [image[h][path[h]]];
        evals := evals + [energy[h][path[h]]];
        image := image[h := RemoveAt(image[h], path[h])];
        energy := energy[h := RemoveAt(energy[h], path[h])];
        h := h + 1;
      }
    }

    /** Re-inserts a recorded seam's pixels and energies at its columns in every row. */
    method PasteSeam(path: seq<int>, vals: seq<int>, evals: seq<int>)
      requires |path| == |vals| == |evals| && FitsGaps(image, path) && FitsGaps(energy, path)
      modifies this`image, this`energy
      ensures image == InsertSeam(old(image), path, vals) && energy == InsertSeam(old(energy), path, evals)
    {
      var i := 0;
      while i < |path|
        invariant 0 <= i <= |path|
        invariant |image| == |old(image)| && |energy| == |old(energy)|
        invariant forall k | 0 <= k < i :: image[k] == InsertAt(old(image)[k], path[k], vals[k])
        invariant forall k | 0 <= k < i :: energy[k] == InsertAt(old(energy)[k], path[k], evals[k])
        invariant forall k | i <= k < |image| :: image[k] == old(image)[k]
        invariant forall k | i <= k < |energy| :: energy[k] == old(energy)[k]
      {
        image := image[i := InsertAt(image[i], path[i], vals[i])];
        energy := energy[i := InsertAt(energy[i], path[i], evals[i])];
        i := i + 1;
      }
    }

    /** Takes seam `path`, selected from cost map `m`, out of the image and the energy grid, and pushes its undo record. */
    method Carve(path: seq<int>, ghost m: seq<seq<int>>)
      requires Valid() && width > 2 && IsSeam(path, height, width)
      modifies this`image, this`energy, this`width, this`seams, this`values, this`energyValues, this`history, this`energyHistory, this`mapHistory
      ensures Valid()
      ensures width == old(width) - 1
      ensures seams == old(seams) + [path] && history == old(history) + [old(image)]
      ensures FitsRows(old(image), path) && FitsRows(old(energy), path)
      ensures image == RemoveSeam(old(image), path) && values == old(values) + [SeamValues(old(image), path)]
      ensures energy == RemoveSeam(old(energy), path) && energyValues == old(energyValues) + [SeamValues(old(energy), path)]
      ensures energyHistory == old(energyHistory) + [old(energy)] && mapHistory == old(mapHistory) + [m]
      ensures Pushed(old(Stacks()), Stacks())
    {
      ghost var before, grid := image, energy;
      PushExtendsChain(original, history, image, seams, values, height, capacity, path);
      RemoveSeamShape(image, path, height, width);
      var vals, evals := CutSeam(path);
      width := width - 1;
      seams := seams + [path];
      values := values + [vals];
      energyValues := energyValues + [evals];
      history := history + [before];
      energyHistory := energyHistory + [grid];
      mapHistory := mapHistory + [m];
      assert Snapshots()[..|seams|] == old(Snapshots()) && EnergySnapshots()[..|seams|] == old(EnergySnapshots());
    }

    /**
     * Selects the seam the walk down the cost map gives and carves it out;
     * on a current backward map it is a cheapest seam.
     */
    method CarveSelected() returns (path: seq<int>)
      requires Valid() && width > 2
      modifies this`image, this`energy, this`width, this`seams, this`values, this`energyValues, this`history, this`energyHistory, this`mapHistory
      ensures Valid()
      ensures width == old(width) - 1
      ensures IsSeam(path, height, old(width)) && Selects(Rows(costMap), old(width), path)
      ensures seams == old(seams) + [path] && history == old(history) + [old(image)]
      ensures FitsRows(old(image), path) && FitsRows(old(energy), path)
      ensures image == RemoveSeam(old(image), path) && values == old(values) + [SeamValues(old(image), path)]
      ensures energy == RemoveSeam(old(energy), path) && energyValues == old(energyValues) + [SeamValues(old(energy), path)]
      ensures energyHistory == old(energyHistory) + [old(energy)] && mapHistory == old(mapHistory) + [Rows(costMap)]
      ensures Pushed(old(Stacks()), Stacks())
      ensures model.Backward? && old(MapIsCurrent()) ==> BackwardEnergy.CheapestSeam(old(energy), height, old(width), path)
    {
      path := SelectSeam();
      SelectedIsSeam(Rows(costMap), width, path);
      if model.Backward? && MapIsCurrent() {
        BackwardEnergy.SelectedSeamIsCheapest(Rows(costMap), energy, height, width, path);
      }
      Carve(path, Rows(costMap));
    }

    /** Pops the last undo record and re-inserts its pixels and energies at its seam. */
    method Uncarve() returns (path: seq<int>)
      requires Valid() && |seams| > 0
      modifies this`image, this`energy, this`width, this`seams, this`values, this`energyValues, this`history, this`energyHistory, this`mapHistory
      ensures Valid()
      ensures width == old(width) + 1
      ensures path == old(Last(seams)) && IsSeam(path, height, width)
      ensures seams == old(seams[..|seams| - 1]) && values == old(values[..|values| - 1])
      ensures energyValues == old(energyValues[..|energyValues| - 1])
      ensures history == old(history[..|history| - 1]) && image == old(Last(history))
      ensures energyHistory == old(energyHistory[..|energyHistory| - 1])
      ensures Popped(old(Stacks()), Stacks())
      ensures FitsGaps(old(image), path) && FitsGaps(old(energy), path)
      ensures |old(Last(values))| == |old(Last(energyValues))| == height
      ensures image == InsertSeam(old(image), path, old(Last(values)))
      ensures energy == InsertSeam(old(energy), path, old(Last(energyValues)))
    {
      PopRestoresSnapshot(original, history, image, seams, values, height, capacity);
      path := Last(seams);
      var vals := Last(values);
      var evals := Last(energyValues);
      seams := seams[..|seams| - 1];
      values := values[..|values| - 1];
      energyValues := energyValues[..|energyValues| - 1];
      history := history[..|history| - 1];
      energyHistory := energyHistory[..|energyHistory| - 1];
      mapHistory := mapHistory[..|mapHistory| - 1];
      PasteSeam(path, vals, evals);
      width := width + 1;
    }

    /** The refresh `remove` and `add` perform when `update` is set: the image, or the image with `path` highlighted. */
    method Display(highlight: bool, path: seq<int>, color: int)
      requires Sized() && Shaped(image, height, width) && |path| == height
      modifies data
      ensures update ==> if highlight then ShowsSeam(path, color) else ShowsImage()
      ensures !update ==> unchanged(data)
    {
      if update {
        if highlight {
          HighlightPath(path, color);
        } else {
          UpdateImage();
        }
      }
    }

    /** What `remove` and `add` do after changing the image: the display refresh, then the new cost map. */
    method Redraw(highlight: bool, path: seq<int>, color: int)
      requires Valid() && |path| == height
      modifies data, costMap, minimums
      ensures MapIsCurrent()
      ensures update ==> if highlight then ShowsSeam(path, color) else ShowsImage()
      ensures !update ==> unchanged(data)
    {
      Display(highlight, path, color);
      EnergyMap();
    }

    /**
     * `remove(highlight, color)` of either model: fails, changing nothing,
     * at width 2; otherwise removes the seam the walk selects from every
     * image and energy row, refreshes the display if `update` is set,
     * pushes the undo record and recomputes the cost map.
     */
    method Remove(highlight: bool, color: int) returns (ok: bool)
      requires Valid()
      modifies this, data, costMap, minimums
      ensures Valid() && update == old(update)
      ensures ok <==> old(width) != 2
      ensures !ok ==> unchanged(this, data, costMap, minimums)
      ensures ok ==> width == old(width) - 1
      ensures ok ==> |seams| == old(|seams|) + 1
      ensures ok ==> history == old(history) + [old(image)] && energyHistory == old(energyHistory) + [old(energy)]
      ensures ok ==> mapHistory == old(mapHistory) + [old(Rows(costMap))]
      ensures ok ==> Pushed(old(Stacks()), Stacks())
      ensures ok ==> IsSeam(Last(seams), height, old(width)) && Selects(old(Rows(costMap)), old(width), Last(seams))
      ensures ok ==> image == RemoveSeam(old(image), Last(seams)) && Last(values) == SeamValues(old(image), Last(seams))
      ensures ok ==> energy == RemoveSeam(old(energy), Last(seams)) && Last(energyValues) == SeamValues(old(energy), Last(seams))
      ensures ok ==> MapIsCurrent()
      ensures ok && update ==> if highlight then ShowsSeam(Last(seams), color) else ShowsImage()
      ensures ok && !update ==> unchanged(data)
      ensures ok && model.Backward? && old(MapIsCurrent()) ==>
        BackwardEnergy.CheapestSeam(old(energy), height, old(width), Last(seams))
    {
      if width == 2 {
        return false;
      }
      RemoveOne(highlight, color);
      ok := true;
    }

    /** `remove(highlight, color)` past its width check. */
    method RemoveOne(highlight: bool, color: int)
      requires Valid() && width > 2
      modifies this, data, costMap, minimums
      ensures Valid() && update == old(update)
      ensures width == old(width) - 1
      ensures |seams| == old(|seams|) + 1
      ensures history == old(history) + [old(image)] && energyHistory == old(energyHistory) + [old(energy)]
      ensures mapHistory == old(mapHistory) + [old(Rows(costMap))]
      ensures Pushed(old(Stacks()), Stacks())
      ensures IsSeam(Last(seams), height, old(width)) && Selects(old(Rows(costMap)), old(width), Last(seams))
      ensures image == RemoveSeam(old(image), Last(seams)) && Last(values) == SeamValues(old(image), Last(seams))
      ensures energy == RemoveSeam(old(energy), Last(seams)) && Last(energyValues) == SeamValues(old(energy), Last(seams))
      ensures MapIsCurrent()
      ensures update ==> if highlight then ShowsSeam(Last(seams), color) else ShowsImage()
      ensures !update ==> unchanged(data)
      ensures model.Backward? && old(MapIsCurrent()) ==>
        BackwardEnergy.CheapestSeam(old(energy), height, old(width), Last(seams))
    {
      var path := CarveSelected();
      assert Last(seams) == path;
      Redraw(highlight, path, color);
    }

    /**
     * `add(highlight, color)` of either model: fails, changing nothing, on
     * an empty undo stack; otherwise pops the last record, re-inserts its
     * pixels and energies at its columns, refreshes the display if `update`
     * is set and recomputes the cost map.
     */
    method Add(highlight: bool, color: int) returns (ok: bool)
      requires Valid()
      modifies this, data, costMap, minimums
      ensures Valid() && update == old(update)
      ensures ok <==> old(|seams|) > 0
      ensures !ok ==> unchanged(this, data, costMap, minimums)
      ensures ok ==> width == old(width) + 1
      ensures ok ==> seams == old(seams[..|seams| - 1]) && values == old(values[..|values| - 1])
      ensures ok ==> energyValues == old(energyValues[..|energyValues| - 1])
      ensures ok ==> history == old(history[..|history| - 1]) && image == old(Last(history))
      ensures ok ==> energyHistory == old(energyHistory[..|energyHistory| - 1])
      ensures ok ==> Popped(old(Stacks()), Stacks())
      ensures ok ==> Snapshots() == old(Snapshots()[..|seams|])
      ensures ok ==> IsSeam(old(Last(seams)), height, width)
      ensures ok ==> FitsGaps(old(image), old(Last(seams))) && FitsGaps(old(energy), old(Last(seams)))
      ensures ok ==> |old(Last(values))| == |old(Last(energyValues))| == height
      ensures ok ==> image == InsertSeam(old(image), old(Last(seams)), old(Last(values)))
      ensures ok ==> energy == InsertSeam(old(energy), old(Last(seams)), old(Last(energyValues)))
      ensures ok ==> MapIsCurrent()
      ensures ok && update ==> if highlight then ShowsSeam(old(Last(seams)), color) else ShowsImage()
      ensures ok && !update ==> unchanged(data)
    {
      if |seams| == 0 {
        return false;
      }
      AddOne(highlight, color);
      ok := true;
    }

    /** `add(highlight, color)` past its check for an empty undo stack. */
    method AddOne(highlight: bool, color: int)
      requires Valid() && |seams| > 0
      modifies this, data, costMap, minimums
      ensures Valid() && update == old(update)
      ensures width == old(width) + 1
      ensures seams == old(seams[..|seams| - 1]) && values == old(values[..|values| - 1])
      ensures energyValues == old(energyValues[..|energyValues| - 1])
      ensures history == old(history[..|history| - 1]) && image == old(Last(history))
      ensures energyHistory == old(energyHistory[..|energyHistory| - 1])
      ensures Popped(old(Stacks()), Stacks())
      ensures Snapshots() == old(Snapshots()[..|seams|])
      ensures IsSeam(old(Last(seams)), height, width)
      ensures FitsGaps(old(image), old(Last(seams))) && FitsGaps(old(energy), old(Last(seams)))
      ensures |old(Last(values))| == |old(Last(energyValues))| == height
      ensures image == InsertSeam(old(image), old(Last(seams)), old(Last(values)))
      ensures energy == InsertSeam(old(energy), old(Last(seams)), old(Last(energyValues)))
      ensures MapIsCurrent()
      ensures update ==> if highlight then ShowsSeam(old(Last(seams)), color) else ShowsImage()
      ensures !update ==> unchanged(data)
    {
      var path := Uncarve();
      Redraw(highlight, path, color);
    }
  
    /**
     * `remove(count, highlight, color)`: removes `count` seams, or as many
     * as leave 2 columns, with the display refreshed only by the last of
     * them, and returns how many it removed. It changes nothing when the
     * image is at width 2 or `count <= 0`. Afterwards `update` is set.
     */
    method RemoveMany(count: int, highlight: bool, color: int) returns (removed: int)
      requires Valid()
      modifies this, data, costMap, minimums
      ensures Valid()
      ensures removed == if old(width) == 2 || count <= 0 then 0 else Min(count, old(width) - 2)
      ensures removed == 0 ==> unchanged(this, data, costMap, minimums)
      ensures width == old(width) - removed && |seams| == old(|seams|) + removed
      ensures Pushed(old(Stacks()), Stacks())
      ensures Greedy(Stacks(), model, height, capacity, old(|seams|))
      ensures removed > 0 ==> mapHistory[old(|seams|)] == old(Rows(costMap))
      ensures removed > 0 ==> update && MapIsCurrent()
      ensures removed > 0 ==> if highlight then ShowsSeam(Last(seams), color) else ShowsImage()
    {
      if width == 2 || count <= 0 {
        return 0;
      }
      ghost var u0 := Stacks();
      update := false;
      var index := RemoveQuietly(count, highlight, color);
      RemoveAgain(u0, old(Rows(costMap)), highlight, color);
      removed := index - 1;
    }

    /**
     * The last step of `remove(count, ...)`: switches the refresh back on
     * and removes one more seam, the one the walk selects on the current
     * map. It keeps the records pushed since `u0` greedy, the first of
     * them selected from `m0`.
     */
    method RemoveAgain(ghost u0: Undo, ghost m0: seq<seq<int>>, highlight: bool, color: int)
      requires Valid() && width > 2 && Pushed(u0, Stacks()) && Greedy(Stacks(), model, height, capacity, |u0.seams|)
      requires (mapHistory + [Rows(costMap)])[|u0.seams|] == m0
      requires |seams| > |u0.seams| ==> MapIsCurrent()
      modifies this, data, costMap, minimums
      ensures Valid() && update && MapIsCurrent()
      ensures width == old(width) - 1 && |seams| == old(|seams|) + 1
      ensures IsSeam(Last(seams), height, old(width)) && Selects(old(Rows(costMap)), old(width), Last(seams))
      ensures mapHistory == old(mapHistory) + [old(Rows(costMap))] && energyHistory == old(energyHistory) + [old(energy)]
      ensures Pushed(u0, Stacks()) && Greedy(Stacks(), model, height, capacity, |u0.seams|)
      ensures mapHistory[|u0.seams|] == m0
      ensures if highlight then ShowsSeam(Last(seams), color) else ShowsImage()
    {
      ghost var u1 := Stacks();
      if |seams| > |u0.seams| {
        CurrentMap();
      }
      update := true;
      var _ := Remove(highlight, color);
      BatchStep(u0, u1, Stacks(), model, height, capacity, old(Rows(costMap)), old(energy));
    }

    /**
     * The loop of `remove(count, highlight, color)`, run with `update`
     * off: `while (index++ < count && width > 3) remove(...)`. It returns
     * the final `index`, one more than the removals it made plus the one
     * still to come.
     */
    method RemoveQuietly(count: int, highlight: bool, color: int) returns (index: int)
      requires Valid() && !update && count >= 1 && width >= 3
      modifies this, data, costMap, minimums
      ensures Valid() && !update
      ensures index - 1 == Min(count, old(width) - 2)
      ensures width == old(width) - (index - 2) >= 3 && |seams| == old(|seams|) + (index - 2)
      ensures Pushed(old(Stacks()), Stacks())
      ensures Greedy(Stacks(), model, height, capacity, old(|seams|))
      ensures (mapHistory + [Rows(costMap)])[old(|seams|)] == old(Rows(costMap))
      ensures |seams| > old(|seams|) ==> MapIsCurrent()
    {
      ghost var u0 := Stacks();
      index := 1;
      var more := index < count && width > 3;
      index := index + 1;
      while more
        invariant Valid() && !update
        invariant 2 <= index <= count + 1 && width == old(width) - (index - 2) >= 3
        invariant more <==> index - 1 < count && width > 3
        invariant |seams| == old(|seams|) + (index - 2)
        invariant Pushed(u0, Stacks())
        invariant Greedy(Stacks(), model, height, capacity, |u0.seams|)
        invariant (mapHistory + [Rows(costMap)])[|u0.seams|] == old(Rows(costMap))
        invariant |seams| > |u0.seams| ==> MapIsCurrent()
        decreases width
      {
        RemoveStep(u0, old(Rows(costMap)), highlight, color);
        more := index < count && width > 3;
        index := index + 1;
      }
    }

    /**
     * One `remove(...)` of the loop of `remove(count, ...)`: it keeps the
     * records pushed since `u0` greedy, the first of them selected from `m0`.
     */
    method RemoveStep(ghost u0: Undo, ghost m0: seq<seq<int>>, highlight: bool, color: int)
      requires Valid() && !update && width > 3 && Pushed(u0, Stacks()) && Greedy(Stacks(), model, height, capacity, |u0.seams|)
      requires (mapHistory + [Rows(costMap)])[|u0.seams|] == m0
      requires |seams| > |u0.seams| ==> MapIsCurrent()
      modifies this, data, costMap, minimums
      ensures Valid() && !update && MapIsCurrent()
      ensures |seams| == old(|seams|) + 1 && width == old(width) - 1
      ensures Pushed(u0, Stacks()) && Greedy(Stacks(), model, height, capacity, |u0.seams|)
      ensures mapHistory[|u0.seams|] == m0
    {
      ghost var u1 := Stacks();
      if |seams| > |u0.seams| {
        CurrentMap();
      }
      var _ := Remove(highlight, color);
      BatchStep(u0, u1, Stacks(), model, height, capacity, old(Rows(costMap)), old(energy));
    }

    /**
     * `add(count, highlight, color)`: re-inserts the `count` most recently
     * removed seams, or all of them, with the display refreshed only by the
     * last, and returns how many it restored. It changes nothing when the
     * undo stack is empty or `count <= 0`. Afterwards `update` is set.
     */
    method AddMany(count: int, highlight: bool, color: int) returns (added: int)
      requires Valid()
      modifies this, data, costMap, minimums
      ensures Valid()
      ensures added == if old(|seams|) == 0 || count <= 0 then 0 else Min(count, old(|seams|))
      ensures added == 0 ==> unchanged(this, data, costMap, minimums)
      ensures width == old(width) + added && |seams| == old(|seams|) - added
      ensures Popped(old(Stacks()), Stacks())
      ensures image == old(Snapshots())[|seams|] && (|seams| == 0 ==> image == original)
      ensures added > 0 ==> update && MapIsCurrent()
      ensures added > 0 ==> if highlight then ShowsSeam(old(seams)[|seams|], color) else ShowsImage()
    {
      if |seams| == 0 || count <= 0 {
        return 0;
      }
      ghost var u0 := Stacks();
      update := false;
      var index := AddQuietly(count, highlight, color);
      ghost var u1 := Stacks();
      AddAgain(highlight, color);
      PoppedTransitive(u0, u1, Stacks());
      assert u1.seams[|seams|] == u0.seams[|seams|];
      TopSnapshot();
      added := index - 1;
    }

    /** The last step of `add(count, ...)`: switches the refresh back on and adds one seam back. */
    method AddAgain(highlight: bool, color: int)
      requires Valid() && |seams| >= 1
      modifies this, data, costMap, minimums
      ensures Valid() && update && MapIsCurrent()
      ensures width == old(width) + 1 && |seams| == old(|seams|) - 1
      ensures Popped(old(Stacks()), Stacks())
      ensures if highlight then ShowsSeam(old(Last(seams)), color) else ShowsImage()
    {
      update := true;
      var _ := Add(highlight, color);
    }

    /**
     * The loop of `add(count, highlight, color)`, run with `update` off:
     * `while (index++ < count && seams.size() > 1) add(...)`. It returns
     * the final `index`, one more than the insertions it made plus the one
     * still to come.
     */
    method AddQuietly(count: int, highlight: bool, color: int) returns (index: int)
      requires Valid() && !update && count >= 1 && |seams| >= 1
      modifies this, data, costMap, minimums
      ensures Valid() && !update
      ensures index - 1 == Min(count, old(|seams|))
      ensures |seams| == old(|seams|) - (index - 2) >= 1 && width == old(width) + (index - 2)
      ensures Popped(old(Stacks()), Stacks())
    {
      ghost var u0 := Stacks();
      index := 1;
      var more := index < count && |seams| > 1;
      index := index + 1;
      while more
        invariant Valid() && !update
        invariant 2 <= index <= count + 1 && |seams| == old(|seams|) - (index - 2) >= 1
        invariant more <==> index - 1 < count && |seams| > 1
        invariant width == old(width) + (index - 2)
        invariant Popped(u0, Stacks())
        decreases |seams|
      {
        AddStep(u0, highlight, color);
        more := index < count && |seams| > 1;
        index := index + 1;
      }
    }

    /** One `add(...)` of the loop of `add(count, ...)`, which keeps the records it pops popped from `u0`. */
    method AddStep(ghost u0: Undo, highlight: bool, color: int)
      requires Valid() && !update && |seams| >= 1 && Popped(u0, Stacks())
      modifies this, data, costMap, minimums
      ensures Valid() && !update
      ensures |seams| == old(|seams|) - 1 && width == old(width) + 1
      ensures Popped(u0, Stacks())
    {
      ghost var u1 := Stacks();
      var _ := Add(highlight, color);
      PoppedTransitive(u0, u1, Stacks());
    }

    /** `setEnergy(x, y, val)`: overwrites one energy value; out-of-range coordinates fail and change nothing. */
    method SetEnergy(x: int, y: int, val: int) returns (ok: bool)
      requires Valid()
      modifies this`energy
      ensures Valid()
      ensures ok <==> 0 <= y < height && 0 <= x < width
      ensures ok ==> energy == old(energy)[y := old(energy)[y][x := val]]
      ensures !ok ==> energy == old(energy)
    {
      if 0 <= y < height && 0 <= x < width {
        energy := energy[y := energy[y][x := val]];
        ok := true;
      } else {
        ok := false;
      }
    }

    /** `setUpdate(update)`: whether later removals and insertions refresh the display buffer. */
    method SetUpdate(u: bool)
      requires Valid()
      modifies this`update
      ensures Valid() && update == u
    {
      update := u;
    }

    /**
     * The constructors of SeamCarverBackward and SeamCarverForward: copy the
     * pixels into the image rows and the display buffer, derive the energy
     * grid (the gradient magnitude of the grayscale, or the grayscale
     * itself) and compute the cost map.
     */
    constructor(source: array2<int>, model: EnergyModel)
      requires source.Length0 >= 1 && source.Length1 >= 2
      ensures this.model == model && height == source.Length0 && width == capacity == source.Length1
      ensures Valid() && MapIsCurrent() && ShowsImage()
      ensures image == Rows(source) && original == image && update
      ensures seams == [] && values == [] && energyValues == []
      ensures model.Backward? ==> IsGradientEnergy(source, energy)
      ensures model.Forward? ==> forall h, w | 0 <= h < height && 0 <= w < width :: energy[h][w] == Luma(source[h, w])
      ensures fresh(data) && fresh(costMap) && fresh(minimums)
    {
      var rows := CopyRows(source);
      this.model := model;
      height := source.Length0;
      width := source.Length1;
      capacity := source.Length1;
      update := true;
      seams, values, energyValues := [], [], [];
      image := rows;
      data := new int[source.Length0 * source.Length1];
      costMap := new int[source.Length0, source.Length1];
      var grid := InitialEnergy(source, model);
      energy := grid;
      // Only the forward model keeps a table of accumulated minimums.
      var extent := if model.Forward? then source.Length0 else 0;
      minimums := new int[extent, if model.Forward? then source.Length1 else 0];
      history := [];
      energyHistory := [];
      mapHistory := [];
      original := rows;
      new;
      UpdateImage();
      EnergyMap();
    }
  }

  /** `energy` is what `Utils.sobel` computes from `source`: gradient rows and two empty rows below. */
  ghost predicate IsGradientEnergy(source: array2<int>, energy: seq<seq<int>>)
    requires source.Length0 >= 1 && source.Length1 >= 1
    reads source
  {
    && |energy| == source.Length0 + 2
    && forall h | 0 <= h < source.Length0 :: SobelRow(source, energy[h], h)
  }

  /**
   * The energy grid a carver starts from: the gradient energy of the
   * image (SeamCarverBackward), or its grayscale (SeamCarverForward).
   */
  method InitialEnergy(source: array2<int>, model: EnergyModel) returns (grid: seq<seq<int>>)
    requires source.Length0 >= 1 && source.Length1 >= 1
    ensures |grid| == if model.Backward? then source.Length0 + 2 else source.Length0
    ensures forall h | 0 <= h < source.Length0 :: |grid[h]| == source.Length1
    ensures forall h | source.Length0 <= h < |grid| :: grid[h] == []
    ensures model.Backward? ==> IsGradientEnergy(source, grid)
    ensures model.Forward? ==> forall h, w | 0 <= h < source.Length0 && 0 <= w < source.Length1 :: grid[h][w] == Luma(source[h, w])
  {
    match model {
      case Backward =>
        grid := Sobel(source);
      case Forward =>
        var gray := Grayscale(source);
        grid := CopyRows(gray);
    }
  }

  /** The rows of a two-dimensional array, as lists. */
  method CopyRows(a: array2<int>) returns (rows: seq<seq<int>>)
    ensures rows == Rows(a)
  {
    rows := [];
    var h := 0;
    while h < a.Length0
      invariant 0 <= h <= a.Length0 && |rows| == h
      invariant forall i | 0 <= i < h :: rows[i] == Rows(a)[i]
    {
      var row := [];
      var w := 0;
      while w < a.Length1
        invariant 0 <= w <= a.Length1 && |row| == w
        invariant forall j | 0 <= j < w :: row[j] == a[h, j]
      {
        row := row + [a[h, w]];
        w := w + 1;
      }
      rows := rows + [row];
      h := h + 1;
    }
  }

  /**
   * Removing a seam and then adding it back restores the image, the
   * energy grid, the width and the undo stacks.
   */
  method RemoveThenAdd(carver: SeamCarver, highlight: bool, color: int) returns (removed: bool, added: bool)
    requires carver.Valid()
    modifies carver, carver.data, carver.costMap, carver.minimums
    ensures carver.Valid()
    ensures removed <==> old(carver.width) != 2
    ensures removed ==> added && carver.MapIsCurrent()
    ensures carver.image == old(carver.image) && carver.energy == old(carver.energy) && carver.width == old(carver.width)
    ensures carver.seams == old(carver.seams) && carver.values == old(carver.values)
    ensures carver.energyValues == old(carver.energyValues) && carver.history == old(carver.history)
  {
    ghost var energy := carver.energy;
    removed := carver.Remove(highlight, color);
    added := false;
    if removed {
      ghost var path := Last(carver.seams);
      added := carver.Add(highlight, color);
      InsertUndoesRemove(energy, path);
      assert carver.seams + [path] == old(carver.seams) + [path];
    }
  }

  /**
   * Removing up to `count` seams in one batch and then adding back as many
   * as were removed restores the image, the width and the undo stacks; the
   * display then shows the restored image unless the last seam is highlighted.
   */
  method RemoveManyThenAddMany(carver: SeamCarver, count: int, highlight: bool, color: int) returns (removed: int, added: int)
    requires carver.Valid()
    modifies carver, carver.data, carver.costMap, carver.minimums
    ensures carver.Valid()
    ensures added == removed == if old(carver.width) == 2 || count <= 0 then 0 else Min(count, old(carver.width) - 2)
    ensures carver.image == old(carver.image) && carver.energy == old(carver.energy) && carver.width == old(carver.width)
    ensures carver.seams == old(carver.seams) && carver.values == old(carver.values)
    ensures carver.energyValues == old(carver.energyValues) && carver.history == old(carver.history)
    ensures carver.energyHistory == old(carver.energyHistory) && carver.mapHistory == old(carver.mapHistory)
    ensures removed > 0 ==> carver.MapIsCurrent() && (!highlight ==> carver.ShowsImage())
  {
    ghost var n := |carver.seams|;
    removed := carver.RemoveMany(count, highlight, color);
    ghost var u1 := carver.Stacks();
    added := carver.AddMany(removed, highlight, color);
    PushedThenPopped(old(carver.Stacks()), u1, carver.Stacks());
    assert carver.history == carver.Snapshots()[..n] && carver.energyHistory == carver.EnergySnapshots()[..n];
  }
}