/**
 * Seams over per-row sequences: deleting and re-inserting one value per
 * row at recorded columns (the `ArrayList.remove(i)` / `add(i, v)` pair
 * the carver applies to its image and energy rows), and the greedy walk
 * that picks a seam from a cost map.
 */
module Seams {
  import opened Utils

  /** The row with its `i`-th value deleted; later values shift left. */
  function RemoveAt(s: seq<int>, i: int): (r: seq<int>)
    requires 0 <= i < |s|
    ensures |r| == |s| - 1
    ensures forall k | 0 <= k < |r| :: r[k] == if k < i then s[k] else s[k + 1]
  {
    s[..i] + s[i + 1..]
  }

  /** The row with `v` inserted before its `i`-th value; later values shift right. */
  function InsertAt(s: seq<int>, i: int, v: int): (r: seq<int>)
    requires 0 <= i <= |s|
    ensures |r| == |s| + 1 && r[i] == v
    ensures forall k | 0 <= k < |r| && k != i :: r[k] == if k < i then s[k] else s[k - 1]
  {
    s[..i] + [v] + s[i..]
  }

  /** A path of one column per row, each in `[0, width)`, neighbouring rows at most one column apart. */
  ghost predicate IsSeam(p: seq<int>, height: int, width: int)
  {
    && |p| == height
    && (forall h | 0 <= h < height :: 0 <= p[h] < width)
    && (forall h | 1 <= h < height :: -1 <= p[h] - p[h - 1] <= 1)
  }

  /** `p` names a column inside each of the first `|p|` rows. */
  ghost predicate FitsRows(rows: seq<seq<int>>, p: seq<int>)
  {
    |p| <= |rows| && forall h | 0 <= h < |p| :: 0 <= p[h] < |rows[h]|
  }

  /** `p` names a column inside, or just past the end of, each of the first `|p|` rows. */
  ghost predicate FitsGaps(rows: seq<seq<int>>, p: seq<int>)
  {
    |p| <= |rows| && forall h | 0 <= h < |p| :: 0 <= p[h] <= |rows[h]|
  }

  /** Rows `0..|p|-1` each lose the value at `p[h]`; the rows after them are kept. */
  function RemoveSeam(rows: seq<seq<int>>, p: seq<int>): (r: seq<seq<int>>)
    requires FitsRows(rows, p)
    ensures |r| == |rows|
    ensures forall h | 0 <= h < |p| :: r[h] == RemoveAt(rows[h], p[h])
    ensures forall h | |p| <= h < |rows| :: r[h] == rows[h]
  {
    seq(|rows|, h requires 0 <= h < |rows| => if h < |p| then RemoveAt(rows[h], p[h]) else rows[h])
  }

  /** The value each of the first `|p|` rows holds at `p[h]`. */
  function SeamValues(rows: seq<seq<int>>, p: seq<int>): (v: seq<int>)
    requires FitsRows(rows, p)
    ensures |v| == |p| && forall h | 0 <= h < |p| :: v[h] == rows[h][p[h]]
  {
    seq(|p|, h requires 0 <= h < |p| => rows[h][p[h]])
  }

  /** Rows `0..|p|-1` each get `v[h]` inserted at `p[h]`; the rows after them are kept. */
  function InsertSeam(rows: seq<seq<int>>, p: seq<int>, v: seq<int>): (r: seq<seq<int>>)
    requires FitsGaps(rows, p) && |v| == |p|
    ensures |r| == |rows|
    ensures forall h | 0 <= h < |p| :: r[h] == InsertAt(rows[h], p[h], v[h])
    ensures forall h | |p| <= h < |rows| :: r[h] == rows[h]
  {
    seq(|rows|, h requires 0 <= h < |rows| => if h < |p| then InsertAt(rows[h], p[h], v[h]) else rows[h])
  }

  /** All rows have the same length `width`, and there are `height` of them. */
  ghost predicate Shaped(rows: seq<seq<int>>, height: int, width: int)
  {
    |rows| == height && forall h | 0 <= h < height :: |rows[h]| == width
  }

  /** Removing a seam narrows every row it crosses by one. */
  lemma RemoveSeamShape(rows: seq<seq<int>>, p: seq<int>, height: int, width: int)
    requires Shaped(rows, height, width) && IsSeam(p, height, width)
    ensures FitsRows(rows, p) && Shaped(RemoveSeam(rows, p), height, width - 1)
  {
  }

  /** Re-inserting what a removal took out gives back the original rows. */
  lemma {:induction false} InsertUndoesRemove(rows: seq<seq<int>>, p: seq<int>)
    requires FitsRows(rows, p)
    ensures FitsGaps(RemoveSeam(rows, p), p)
    ensures InsertSeam(RemoveSeam(rows, p), p, SeamValues(rows, p)) == rows
  {
    var removed := RemoveSeam(rows, p);
    var back := InsertSeam(removed, p, SeamValues(rows, p));
    forall h | 0 <= h < |rows| ensures back[h] == rows[h] {
      if h < |p| {
        assert back[h] == InsertAt(RemoveAt(rows[h], p[h]), p[h], rows[h][p[h]]);
        assert rows[h] == rows[h][..p[h]] + [rows[h][p[h]]] + rows[h][p[h] + 1..];
      }
    }
  }

  /** Removing along the path where values were inserted gives back the rows and the values. */
  lemma {:induction false} RemoveUndoesInsert(rows: seq<seq<int>>, p: seq<int>, v: seq<int>)
    requires FitsGaps(rows, p) && |v| == |p|
    ensures FitsRows(InsertSeam(rows, p, v), p)
    ensures RemoveSeam(InsertSeam(rows, p, v), p) == rows
    ensures SeamValues(InsertSeam(rows, p, v), p) == v
  {
    var inserted := InsertSeam(rows, p, v);
    var back := RemoveSeam(inserted, p);
    forall h | 0 <= h < |rows| ensures back[h] == rows[h] {
      if h < |p| {
        assert back[h] == RemoveAt(InsertAt(rows[h], p[h], v[h]), p[h]);
        assert InsertAt(rows[h], p[h], v[h])[..p[h]] == rows[h][..p[h]];
        assert InsertAt(rows[h], p[h], v[h])[p[h] + 1..] == rows[h][p[h]..];
      }
    }
  }

  // ----- Picking a seam from a cost map -----

  /**
   * The columns of the next row the walk may move to from column `m`, in
   * the order in which the source breaks ties between equal costs: at the
   * left edge straight before right, at the right edge left before
   * straight, in the interior left, then right, then straight.
   */
  function Candidates(m: int, width: int): seq<int>
  {
    if m == 0 then [0, 1]
    else if m == width - 1 then [width - 2, width - 1]
    else [m - 1, m + 1, m]
  }

  /** One step of the walk down the cost map (SeamCarverBase.remove). */
  function Step(row: seq<int>, m: int, width: int): (r: int)
    requires 2 <= width <= |row| && 0 <= m < width
    ensures 0 <= r < width && -1 <= r - m <= 1
  {
    if m == 0 then
      (if Min(row[0], row[1]) == row[0] then 0 else 1)
    else if m == width - 1 then
      (if row[width - 2] == Min(row[width - 2], row[width - 1]) then width - 2 else width - 1)
    else if row[m - 1] == Min3(row[m - 1], row[m], row[m + 1]) then m - 1
    else if row[m + 1] == Min3(row[m - 1], row[m], row[m + 1]) then m + 1
    else m
  }

  /**
   * The step moves to a neighbouring column inside the row, to one of the
   * cheapest candidates, and to the first cheapest one in the tie-break
   * order: every candidate listed before it costs strictly more.
   */
  lemma StepPicksFirstCheapest(row: seq<int>, m: int, width: int)
    requires 2 <= width <= |row| && 0 <= m < width
    ensures 0 <= Step(row, m, width) < width && -1 <= Step(row, m, width) - m <= 1
    ensures Step(row, m, width) in Candidates(m, width)
    ensures forall k | 0 <= k < |Candidates(m, width)| :: row[Step(row, m, width)] <= row[Candidates(m, width)[k]]
    ensures forall k, l | 0 <= k < l < |Candidates(m, width)| && Candidates(m, width)[l] == Step(row, m, width) ::
      row[Candidates(m, width)[k]] > row[Step(row, m, width)]
  {
  }

  /** The candidates are exactly the columns of `[0, width)` at most one away from `m`. */
  lemma CandidatesAreNeighbours(m: int, width: int, k: int)
    requires 2 <= width && 0 <= m < width
    ensures k in Candidates(m, width) <==> 0 <= k < width && -1 <= k - m <= 1
  {
  }

  /**
   * `p` is the seam `remove` selects from cost map `m` while the image is
   * `width` columns wide: it starts at the first column minimising row 0,
   * and every later column is one step of the walk from the one above.
   */
  ghost predicate Selects(m: seq<seq<int>>, width: int, p: seq<int>)
  {
    && 2 <= width
    && |p| == |m| >= 1
    && (forall h | 0 <= h < |m| :: |m[h]| >= width)
    && IsFirstMin(m[0], width, p[0])
    && (forall h | 1 <= h < |p| :: StepsDown(m, width, p, h))
  }

  /** Row `h` of the path is one walk step from row `h - 1`. */
  ghost predicate StepsDown(m: seq<seq<int>>, width: int, p: seq<int>, h: int)
    requires 2 <= width && 1 <= h < |p| <= |m| && |m[h]| >= width
  {
    0 <= p[h - 1] < width && p[h] == Step(m[h], p[h - 1], width)
  }

  /** A selected path is a seam: in range and connected. */
  lemma {:induction false} SelectedIsSeam(m: seq<seq<int>>, width: int, p: seq<int>)
    requires Selects(m, width, p)
    ensures IsSeam(p, |m|, width)
  {
    forall h | 1 <= h < |p| ensures 0 <= p[h] < width && -1 <= p[h] - p[h - 1] <= 1 {
      assert StepsDown(m, width, p, h);
      StepPicksFirstCheapest(m[h], p[h - 1], width);
    }
  }

  /** Scenario: in a one-row map `[5, 1, 5]` the selected seam is column 1. */
  lemma SelectsCheapestColumnOfOneRow()
    ensures Selects([[5, 1, 5]], 3, [1])
    ensures RemoveSeam([[10, 20, 30]], [1]) == [[10, 30]]
  {
    assert RemoveAt([10, 20, 30], 1) == [10, 30];
  }
}
