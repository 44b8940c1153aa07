# Seam carving engine

A model of the seam-carving engine in `seam_carving/src`. The engine holds
an image as rows of packed RGB pixels. Beside the image it keeps an energy
grid of the same shape and a cost map derived from that grid.

- `remove` narrows the image by one column. It walks the cost map from a
  cheapest top-row cell down to the bottom row and takes one pixel per row,
  with neighbouring rows at most one column apart (a *seam*). It deletes
  that pixel and its energy from every row and pushes an undo record of the
  seam's columns, pixels and energies.
- `add` pops the most recent undo record and re-inserts the pixels and
  energies at the recorded columns.
- The batch forms `remove(count, …)` and `add(count, …)` repeat the single
  operation with the display refresh switched off for all but the last
  step, and return how many steps they made.
- A flat, row-major display buffer shows the image, optionally with the
  cells around the last seam painted in a highlight colour.

There are two energy models:

- The *backward* model's energy is the gradient magnitude of the
  edge-padded grayscale (`Utils.sobel`). Its cost map is the bottom-up
  dynamic programme "a cell's energy plus the cheapest of the up to three
  cells below it".
- The *forward* model's energy is the grayscale itself. Its cost map is top
  down and charges each move the new pixel adjacency it would create, with
  columns wrapping around the row ends. It keeps a second table of
  accumulated minimums.

The integer helpers of `Utils` are modelled too: min/max, `mod`,
first-occurrence argmin/argmax, grayscale, padding, the Sobel-style energy,
transpose and mirror.

Files:

- `Utils.dfy`:
  - the pure helpers are functions;
  - the array-filling helpers are methods with loops, proved against
    specification functions (`Luma`, `Clamp`, `Gradient`, `SobelX`/`SobelY`,
    `Mirrored`).
- `Seams.dfy` models the row edits on sequences: deleting or inserting at
  a column, a seam, removing it from all rows and re-inserting it. It also
  holds one step of the greedy walk with its tie-break order.
- `BackwardEnergy.dfy` holds the backward cost recurrence and the proof
  that the seam the carver walks down a fresh backward map is a cheapest
  seam.
- `ForwardEnergy.dfy` holds the forward recurrence with wrap-around
  neighbours and its properties: non-negativity, the tie order, and that
  `minimums` is the least cost over all move sequences.
- `Carver.dfy` holds the class `SeamCarver` and a datatype selecting the
  energy model:
  - fields `width`, `update`, the row lists `image` and `energy`, and the
    three undo stacks;
  - the arrays `data` (display buffer), `costMap` (the source's `map`) and
    `minimums`;
  - a ghost `history` of the images before each removal, a ghost
    `energyHistory` of the energy grids before each removal, and a ghost
    `mapHistory` of the cost maps each removed seam was selected from.

  `Valid()` ties these fields together:
  - `height * capacity` cells of display buffer;
  - all rows `width` long;
  - `width + |seams| == capacity`;
  - stacks of equal depth;
  - every undo record removing a seam of the snapshot it was taken from.

  The energy records are not chained inside `Valid()`. `setEnergy` may
  change the grid between removals, so the energy an `add` restores is the
  current grid with the record pasted back. The batch contracts relate
  stacks through the ghost `Undo` value. `Pushed` says the energy records
  of a remove batch chain down from the grid it started at. `Popped` says
  an add batch leaves the grid its popped energies re-inserted. `Greedy`
  says which seams a remove batch took: each is the walk's selection on
  the map of its own step, and every map after the first is the one the
  previous removal recomputed from the energy grid it left.

## Model

| member | source | states |
|---|---|---|
| `Utils.Min3` | seam_carving/src/Utils.java:12-14 | the three-argument minimum is one of its arguments and at most each of them |
| `Utils.Max3` | seam_carving/src/Utils.java:16-18 | the three-argument maximum is one of its arguments and at least each of them |
| `Utils.Min` | seam_carving/src/Utils.java:20-22 | the two-argument minimum is one of its arguments and at most both |
| `Utils.Max` | seam_carving/src/Utils.java:24-26 | the two-argument maximum is one of its arguments and at least both |
| `Utils.JavaRem` | seam_carving/src/Utils.java:29 | Java's `%`: the remainder takes the dividend's sign and its magnitude is `abs(a) mod abs(b)` |
| `Utils.Mod` | seam_carving/src/Utils.java:28-30 | for `m > 0` the result lies in `[0, m)` and equals the Euclidean remainder, so it is congruent to `a` modulo `m` |
| `Utils.ModIsEuclidean` | seam_carving/src/Utils.java:28-30 | `(a % m + m) % m` with Java's remainder equals the Euclidean `a mod m` for every `a` |
| `Utils.ArgMin` | seam_carving/src/Utils.java:77-87 | for `size >= 1` the index is in `[0, size)`, its value is at most every value before `size`, and every earlier value is strictly larger (first minimum wins); index 0 otherwise |
| `Utils.ArgMax` | seam_carving/src/Utils.java:89-99 | the same with maximum: in range, at least every value, every earlier value strictly smaller |
| `Utils.Luma` | seam_carving/src/Utils.java:65-69 | the gray level is `floor((3R + 4G + B) / 8)` of the packed pixel's channels and lies in `[0, 255]` |
| `Utils.Red` | seam_carving/src/Utils.java:66 | `(p >> 16) & 0xFF` as floor division and Euclidean remainder: a channel value in `[0, 256)` |
| `Utils.Green` | seam_carving/src/Utils.java:67 | `(p >> 8) & 0xFF`: a channel value in `[0, 256)` |
| `Utils.Blue` | seam_carving/src/Utils.java:68 | `p & 0xFF`: a channel value in `[0, 256)` |
| `Utils.Grayscale` | seam_carving/src/Utils.java:58-75 | a fresh array of the same dimensions whose every cell is the gray level of the pixel |
| `Utils.Clamp` | seam_carving/src/Utils.java:109-131 | the edge-replication coordinate: `x` inside `[lo, hi]`, the nearer bound outside |
| `Utils.PadRow` | seam_carving/src/Utils.java:108-132 | one padded row holds the source row at clamped columns; every other row is unchanged |
| `Utils.Pad` | seam_carving/src/Utils.java:102-136 | size `(H + 2p) x (W + 2p)`; every cell is the image cell at the clamped coordinate, so the interior is the image |
| `Utils.SobelXIgnoresRowBelow` | seam_carving/src/Utils.java:150-155 | as written, the two bottom-row terms of `sx` cancel: `sx` depends on the row above and the row itself only |
| `Utils.SobelX` | seam_carving/src/Utils.java:150-155 | `sx` at a padded coordinate over the clamped gray levels, exactly as written; with gray levels in `[0, 255]` it lies in `[-765, 765]` |
| `Utils.SobelY` | seam_carving/src/Utils.java:156-161 | `sy` at a padded coordinate over the clamped gray levels; it lies in `[-1020, 1020]` |
| `Utils.Gradient` | seam_carving/src/Utils.java:149-161 | `abs(sx) + abs(sy)` over a padded gray array, `sx` as written; never negative |
| `Utils.GradientRow` | seam_carving/src/Utils.java:148-163 | one output row holds `W` gradient values of consecutive interior cells of the padded gray image |
| `Utils.GradientOfPaddedLuma` | seam_carving/src/Utils.java:150-162 | a gradient over the padded gray array equals `abs(sx) + abs(sy)` over the image's clamped gray levels |
| `Utils.GradientRowIsSobelRow` | seam_carving/src/Utils.java:148-163 | a row built from the padded gray array is the Sobel row of the image |
| `Utils.Sobel` | seam_carving/src/Utils.java:139-168 | `H + 2` rows: rows `0..H-1` hold `W` values `abs(sx) + abs(sy)`, all non-negative, and the last two rows are empty |
| `Utils.Transpose` | seam_carving/src/Utils.java:171-193 | a fresh `W x H` array with `result[j][i] == image[i][j]` |
| `Utils.Mirrored` | seam_carving/src/Utils.java:199-207 | every row reversed: same shape, `r[i][j] == g[i][W - 1 - j]` |
| `Utils.MirroredTwice` | seam_carving/src/Utils.java:196-210 | mirroring twice gives back the original rows |
| `Utils.Mirror` | seam_carving/src/Utils.java:196-210 | returns the same array, whose rows are the old rows reversed in place |
| `Seams.RemoveAt` | seam_carving/src/SeamCarverBase.java:128-129 | `ArrayList.remove(i)`: one value shorter, later values shift left by one |
| `Seams.InsertAt` | seam_carving/src/SeamCarverBase.java:89-90 | `ArrayList.add(i, v)`: one value longer, `v` at `i`, later values shift right by one |
| `Seams.RemoveSeam` | seam_carving/src/SeamCarverBase.java:146-151 | each row the path crosses loses its value at the path's column; the other rows are kept |
| `Seams.SeamValues` | seam_carving/src/SeamCarverBase.java:148-149 | the values a removal returns: row `h`'s value at `path[h]` |
| `Seams.InsertSeam` | seam_carving/src/SeamCarverBase.java:87-92 | each row the path crosses gets the recorded value inserted at the recorded column; the other rows are kept |
| `Seams.RemoveSeamShape` | seam_carving/src/SeamCarverBase.java:146-153 | removing a seam from `height` rows of width `w` leaves `height` rows of width `w - 1` |
| `Seams.InsertUndoesRemove` | seam_carving/src/SeamCarverBase.java:83-92 | re-inserting the removed values at the seam's columns gives back exactly the rows before the removal |
| `Seams.RemoveUndoesInsert` | seam_carving/src/SeamCarverBase.java:146-151 | removing along the columns where values were inserted gives back the rows and exactly those values |
| `Seams.StepPicksFirstCheapest` | seam_carving/src/SeamCarverBase.java:133-142 | a walk step moves at most one column and stays in range; it picks a cheapest candidate and the first cheapest in the source's tie order (column 0: stay before right; right edge: left before stay; interior: left, right, stay) |
| `Seams.Step` | seam_carving/src/SeamCarverBase.java:133-142 | one walk step from column `m`: the next column is in `[0, width)` and at most one column from `m` (the tie order is proved in `Seams.StepPicksFirstCheapest`) |
| `Seams.CandidatesAreNeighbours` | seam_carving/src/SeamCarverBase.java:133-142 | the candidates of a step are exactly the columns in range at most one away |
| `Seams.SelectedIsSeam` | seam_carving/src/SeamCarverBase.java:126-144 | a path made by the walk has every column in `[0, width)` and neighbouring rows at most one column apart |
| `Seams.SelectsCheapestColumnOfOneRow` | seam_carving/src/SeamCarverBase.java:126-129 | scenario: one cost row `[5, 1, 5]` selects column 1, and removing it from `[10, 20, 30]` leaves `[10, 30]` |
| `BackwardEnergy.Cost` | seam_carving/src/SeamCarverBackward.java:28-41 | the recurrence itself, with no contract of its own: the bottom row costs its energy, a cell above costs its energy plus the cheapest of the in-range cells at most one column away below; its properties are the lemmas in the rows that follow |
| `BackwardEnergy.CostRecurrence` | seam_carving/src/SeamCarverBackward.java:32-41 | a cost is its energy plus at most the cost of every in-range cell at most one column away below, and exactly the one the walk steps to |
| `BackwardEnergy.CostAtLeastEnergy` | seam_carving/src/SeamCarverBackward.java:34-40 | with non-negative energies every cost is at least its cell's energy, which is at least 0 |
| `BackwardEnergy.CostIsLowerBound` | seam_carving/src/SeamCarverBackward.java:32-41 | no seam from a cell down to the bottom row has less total energy than the cell's cost |
| `BackwardEnergy.WalkAttainsCost` | seam_carving/src/SeamCarverBackward.java:32-41 | the walked path's energy from each row down equals the cost at its cell |
| `BackwardEnergy.SelectedSeamIsCheapest` | seam_carving/src/SeamCarverBase.java:126-144 | on a freshly computed backward map the selected seam costs `map[0][path[0]]`, the minimum of row 0, and no seam of the image costs less |
| `BackwardEnergy.TwoRowExample` | seam_carving/src/SeamCarverBackward.java:28-41 | scenario: energies `[[1,2,3],[4,5,6]]` give cost rows `[5,6,8]` and `[4,5,6]` |
| `ForwardEnergy.Left` | seam_carving/src/SeamCarverForward.java:53 | the wrapped left neighbour is a column in `[0, width)` |
| `ForwardEnergy.Right` | seam_carving/src/SeamCarverForward.java:54 | the wrapped right neighbour is a column in `[0, width)` |
| `ForwardEnergy.NeighboursAreMod` | seam_carving/src/SeamCarverForward.java:44-45 | the neighbours are exactly `mod(w - 1, width)` and `mod(w + 1, width)` |
| `ForwardEnergy.CostUp` | seam_carving/src/SeamCarverForward.java:56 | `cU` is non-negative |
| `ForwardEnergy.CostLeft` | seam_carving/src/SeamCarverForward.java:57 | `cL >= cU` |
| `ForwardEnergy.CostRight` | seam_carving/src/SeamCarverForward.java:58 | `cR >= cU` |
| `ForwardEnergy.MinCostAttained` | seam_carving/src/SeamCarverForward.java:64-75 | the minimum is the winning move's source minimum plus the recorded transition cost |
| `ForwardEnergy.MinCostRecurrence` | seam_carving/src/SeamCarverForward.java:60-75 | the minimum is at most every move's total and reached by the winning one; a non-up winner is strictly cheaper than up, and a right winner strictly cheaper than left (ties go U, L, R) |
| `ForwardEnergy.TransitionNonNegative` | seam_carving/src/SeamCarverForward.java:65-75 | each recorded transition cost is at least `cU >= 0` |
| `ForwardEnergy.MinCost` | seam_carving/src/SeamCarverForward.java:48-74 | `minimums[h][w]`: 0 in row 0, then `min(mU, mL, mR)`; never negative, whatever the energies (proved from the recursive calls' contracts) |
| `ForwardEnergy.BestMove` | seam_carving/src/SeamCarverForward.java:64-72 | the move the tie order picks attains the minimum: its source cell's `minimums` entry plus its move cost |
| `ForwardEnergy.Transition` | seam_carving/src/SeamCarverForward.java:47-75 | `map[h][w]`: `cU` in row 0, the winning move's cost below; never less than `cU` |
| `ForwardEnergy.MinCostIsLowerBound` | seam_carving/src/SeamCarverForward.java:60-64 | no sequence of moves from row 0 to a cell costs less than its `minimums` entry |
| `ForwardEnergy.BestMovesAttainMinCost` | seam_carving/src/SeamCarverForward.java:60-75 | the winning moves traced back from a cell cost exactly its `minimums` entry |
| `ForwardEnergy.RowZeroWrapExample` | seam_carving/src/SeamCarverForward.java:43-50 | scenario: in row `[0, 10, 20]` the neighbours wrap and the up-costs are `[10, 20, 10]` |
| `Carver.FlattenCell` | seam_carving/src/SeamCarverBase.java:181 | in the row-major layout, cell `(h, w)` of a `height x width` grid is at index `h * width + w` |
| `Carver.HighlightedCells` | seam_carving/src/SeamCarverBase.java:194-198 | the highlighted view equals the image except at the in-range cells at most one column from the path, which hold the colour |
| `Carver.PushExtendsChain` | seam_carving/src/SeamCarverBase.java:161-163 | pushing the removed seam and its pixels extends the undo chain by one consistent record |
| `Carver.PasteBackUndoesCuts` | seam_carving/src/SeamCarverBase.java:87-92 | re-inserting a chain of recorded energy seams, the most recent first, gives back the grid the chain started from |
| `Carver.PasteBackComposes` | seam_carving/src/SeamCarverBase.java:71-75 | re-inserting records in two batches is re-inserting them in one |
| `Carver.PushedTransitive` | seam_carving/src/SeamCarverBase.java:108-114 | two pushes in a row are a push from the first stacks |
| `Carver.PoppedTransitive` | seam_carving/src/SeamCarverBase.java:71-75 | two pops in a row are a pop from the first stacks, energies included |
| `Carver.PushedThenPopped` | seam_carving/src/SeamCarverBase.java:66-116 | pushing a batch of records and popping as many gives back the stacks, both snapshot histories and the energy grid exactly |
| `Carver.PopRestoresSnapshot` | seam_carving/src/SeamCarverBase.java:83-92 | the top record's pixels re-inserted at its seam give the image before that removal, and the remaining chain stays consistent |
| `Carver.SeamCarver.CopyRow` | seam_carving/src/SeamCarverBase.java:180-182 | buffer cells `h*width .. h*width+width-1` hold image row `h`; no other cell changes |
| `Carver.SeamCarver.PaintAround` | seam_carving/src/SeamCarverBase.java:194-198 | the row's cells at columns `p-1 .. p+1` inside `[0, width)` take the colour; no other cell changes |
| `Carver.SeamCarver.ShowRow` | seam_carving/src/SeamCarverBase.java:190-199 | after one row the buffer prefix shows the rows so far; the cells past it are unchanged |
| `Carver.SeamCarver.UpdateImage` | seam_carving/src/SeamCarverBase.java:177-185 | the first `height*width` buffer cells are the image rows end to end (`data[h*width+w] == image[h][w]`); the rest is unchanged |
| `Carver.SeamCarver.HighlightPath` | seam_carving/src/SeamCarverBase.java:188-201 | the buffer shows the image with only the in-range cells at most one column from the path overwritten by the colour |
| `Carver.SeamCarver.Refresh` | seam_carving/src/SeamCarverBase.java:168-174 | highlights the top seam when asked and there is one, otherwise shows the plain image |
| `Carver.SeamCarver.EnergyMap` | seam_carving/src/SeamCarverForward.java:42-78 | the map (and minimums) hold what the model's recurrence gives for the current energy grid |
| `Carver.SeamCarver.BackwardMap` | seam_carving/src/SeamCarverBackward.java:27-42 | every cell of the first `width` columns holds the backward cost; the bottom row is its energy |
| `Carver.SeamCarver.BackwardRow` | seam_carving/src/SeamCarverBackward.java:32-41 | one row above the filled rows gets its costs from the row below; other rows and columns unchanged |
| `Carver.SeamCarver.ForwardMap` | seam_carving/src/SeamCarverForward.java:43-77 | row 0 holds minimum 0 and cost `cU`; every later cell holds the forward minimum and winning transition |
| `Carver.SeamCarver.ForwardRow` | seam_carving/src/SeamCarverForward.java:52-76 | one more row of both tables is filled from the row above; nothing else changes |
| `Carver.SeamCarver.ForwardCell` | seam_carving/src/SeamCarverForward.java:53-75 | the cell receives `min(mU, mL, mR)` and the winning move's cost with ties U, L, R; nothing else changes |
| `Carver.SeamCarver.SelectSeam` | seam_carving/src/SeamCarverBase.java:126-144 | the path starts at the first minimum of map row 0 over the columns `< width` and continues by tie-broken walk steps |
| `Carver.SeamCarver.CutSeam` | seam_carving/src/SeamCarverBase.java:146-151 | every image and energy row loses its value at the path's column, and the removed values are returned |
| `Carver.SeamCarver.PasteSeam` | seam_carving/src/SeamCarverBase.java:87-92 | every image and energy row gets the recorded value inserted at the recorded column |
| `Carver.SeamCarver.Carve` | seam_carving/src/SeamCarverBase.java:146-163 | width drops by one; the seam, its pixels and its energies are pushed; the rows lose the seam; the object stays valid |
| `Carver.SeamCarver.CarveSelected` | seam_carving/src/SeamCarverBase.java:122-153 | carves the walked seam, and on a current backward map no seam of the image has less energy |
| `Carver.SeamCarver.Uncarve` | seam_carving/src/SeamCarverBase.java:83-94 | pops all three stacks; re-inserts the popped pixels and energies at the popped seam; width grows by one; the image is the snapshot before that removal |
| `Carver.SeamCarver.Display` | seam_carving/src/SeamCarverBase.java:95-101 | with `update` set the buffer shows the highlighted or the plain image; otherwise it is untouched |
| `Carver.SeamCarver.Redraw` | seam_carving/src/SeamCarverBase.java:154-160 | the display refresh followed by a fresh cost map |
| `Carver.SeamCarver.Remove` | seam_carving/src/SeamCarverBase.java:119-165 | fails, changing nothing (map included), exactly at width 2; otherwise removes the selected seam from every row, pushes one record on each stack, refreshes and recomputes the map |
| `Carver.SeamCarver.RemoveOne` | seam_carving/src/SeamCarverBackward.java:19-24 | a successful base removal followed by the model's map recomputation |
| `Carver.SeamCarver.Add` | seam_carving/src/SeamCarverBase.java:80-103 | fails, changing nothing, exactly on an empty stack; otherwise pops one record from each stack, re-inserts it, restores the previous snapshot, widens by one and recomputes the map |
| `Carver.SeamCarver.AddOne` | seam_carving/src/SeamCarverForward.java:29-33 | a successful base insertion followed by the model's map recomputation |
| `Carver.SeamCarver.RemoveMany` | seam_carving/src/SeamCarverBase.java:106-116 | returns 0 and changes nothing at width 2 or `count <= 0`, otherwise `min(count, width - 2)`, removing that many seams with the display refreshed by the last one; the old records and snapshots stay below the new ones, and the new energy records chain down from the old energy grid (`Pushed`); each new seam is the one the walk selects on the map it found, the first on the map before the call and each later one on the map the previous removal recomputed from the energy grid it left (`Greedy`) |
| `Carver.SeamCarver.RemoveAgain` | seam_carving/src/SeamCarverBase.java:113-114 | the batch's last removal with `update` back on: the walk's seam on the current map is taken, one record pushed (`Pushed`), the batch stays greedy (`Greedy`), the map is current and the buffer refreshed |
| `Carver.SeamCarver.RemoveQuietly` | seam_carving/src/SeamCarverBase.java:108-112 | the batch loop runs `min(count, width - 2) - 1` removals; the stacks grow by that many records over the old ones, with the energy records chained from the old grid (`Pushed`) and every seam selected on the map its predecessor left, the first on the map before the loop (`Greedy`) |
| `Carver.SeamCarver.RemoveStep` | seam_carving/src/SeamCarverBase.java:110-111 | one removal of the batch loop: one more record pushed relative to the batch's starting stacks, selected on the current map, so the batch stays greedy |
| `Carver.SeamCarver.CurrentMap` | seam_carving/src/SeamCarverBackward.java:27-42 | a current cost map is what the model's `energyMap` recurrence gives for the energy grid, stated on the map's rows |
| `Carver.GreedyExtends` | seam_carving/src/SeamCarverBase.java:110-114 | a push of the seam the walk selects on a freshly computed map keeps a batch of records greedy |
| `Carver.BatchStep` | seam_carving/src/SeamCarverBase.java:110-114 | one more walked removal keeps the batch so far a greedy push from its starting stacks |
| `Carver.GreedyBackwardIsCheapest` | seam_carving/src/SeamCarverBase.java:110-114 | in the backward model every seam of a greedy batch after the first has no more energy than any other seam of the grid it was cut from |
| `Carver.SeamCarver.AddMany` | seam_carving/src/SeamCarverBase.java:66-77 | returns 0 and changes nothing on an empty stack or `count <= 0`, otherwise `min(count, seams.size())`; the stacks lose that many records, the image is the snapshot that many removals back, and the energy grid is the old one with the popped energies re-inserted, the most recent first (`Popped`) |
| `Carver.SeamCarver.AddAgain` | seam_carving/src/SeamCarverBase.java:74-75 | the batch's last insertion with `update` back on: one record popped and re-inserted (`Popped`), the map current and the buffer refreshed |
| `Carver.SeamCarver.AddQuietly` | seam_carving/src/SeamCarverBase.java:69-73 | the batch loop runs `min(count, seams.size()) - 1` insertions; every stack is truncated by that many records and the energy holds their energies re-inserted (`Popped`) |
| `Carver.SeamCarver.AddStep` | seam_carving/src/SeamCarverBase.java:71-72 | one insertion of the batch loop: one more record popped relative to the batch's starting stacks |
| `Carver.SeamCarver.SetEnergy` | seam_carving/src/SeamCarverBase.java:61-64 | exactly one energy cell changes when the coordinates are in range; otherwise nothing changes |
| `Carver.SeamCarver.SetUpdate` | seam_carving/src/SeamCarverBase.java:57-59 | sets the refresh flag and keeps the object valid |
| `Carver.SeamCarver.constructor` | seam_carving/src/SeamCarverBase.java:19-42 | the image rows and the display buffer hold the source pixels; empty stacks; `update` set; the map is current |
| `Carver.InitialEnergy` | seam_carving/src/SeamCarverForward.java:10-23 | the forward energy is the grayscale of the image; the backward one is `sobel` of it |
| `Carver.CopyRows` | seam_carving/src/SeamCarverBase.java:30-41 | the rows of the two-dimensional array, copied in order |
| `Carver.RemoveThenAdd` | seam_carving/src/SeamCarverBase.java:80-165 | a successful `remove` followed by `add` restores the image, the energy, the width and the stacks exactly |
| `Carver.RemoveManyThenAddMany` | seam_carving/src/SeamCarverBase.java:66-116 | removing a batch and adding back as many restores the image, the energy grid, the width, all three stacks, both snapshot histories and the history of cost maps; when seams were removed the map is current, and when in addition no highlight was asked for, the buffer shows the restored image |

## Left out

- `Utils.parallel` forks one thread per processor over disjoint rows. Each use is modelled as a sequential loop over the rows, and the transpose blocks use one CPU.
- The I/O and environment helpers are not part of this model: `readImage`, `writeImage`, `delay`, `getDimensions`, `joinPath`. Neither are the GUI, the console front end, the `SeamCarver` interface and the getters.
- Horizontal mode is modelled only as far as `transpose` and `mirror` themselves.
- Java's 32-bit arithmetic is not modelled: integers are unbounded. `setEnergy` stores any int (SeamCarverBase.java:62-64), and with energies near `Integer.MAX_VALUE` or `Integer.MIN_VALUE` the sums of the backward map (SeamCarverBackward.java:34-40) and the differences of the forward one (SeamCarverForward.java:56-58) wrap around in Java. Overflow is out of scope: the energies the program computes itself are small, Sobel values at most 1785 and gray levels at most 255, and so are the painting caller's values in 0..255. Packed pixels are split with Euclidean `/` and `%`, which agrees with the source's shifts and masks for negative ints too.
- Carver.SeamCarver.constructor: requires at least two columns. A zero-column image is excluded too. There the base constructor runs and leaves `data` empty. The backward constructor then fails in `pad`, which reads column 0 of every gray row (Utils.java:111). A forward carver constructs, but its `remove` fails in `argmin`, which reads `data[0]` of the empty top map row (Utils.java:79).
- Carver.SeamCarver.constructor: a one-column carver is excluded, because the source then works only partly:
  - A forward carver constructs at every height, since `mod(w - 1, 1) == mod(w + 1, 1) == 0` (SeamCarverForward.java:44-45). Its `add` then returns false, and `setEnergy` works.
  - A backward carver of a 1x1 image constructs, since its map loop over rows `height - 2 .. 0` (SeamCarverBackward.java:32) does not run.
  - At height 1, `remove` succeeds in both models and takes the width to 0, since its guard tests only `width == 2` (SeamCarverBase.java:120).
  - At height 2 or more it fails. The backward constructor reads column 1 of the map (SeamCarverBackward.java:34). The forward `remove` reads `row[1]` (SeamCarverBase.java:134), after row 0 has already lost its pixel (lines 128-129).
- Carver.SeamCarver.SetEnergy: the source throws an index exception for coordinates outside the grid. The model returns `false` and changes nothing. The in-range coordinates are exactly the source's: every energy row in use is `width` long, and the backward model's two extra rows are empty.
- `setEnergy` does not recompute the cost map in the source. The model therefore keeps map freshness out of the object invariant and states it after each successful `add` and `remove` and after construction.
- The source removes row 0's pixel before walking the remaining rows. The model walks the whole path first and then removes every row; the resulting rows, values and stacks are the same.
- Removal stops at width 2, as the code does. A floor of width 1, as in a later revision of the program, is not part of this model.
- The energy after `remove` or `add` is the old one with a seam cut out or put back, as in the source. It is not the gradient of the new image, and the model does not claim it is.
- Utils.Sobel: states each row's values as `abs(sx) + abs(sy)` of the clamped gray levels with `sx` as written, where the bottom-row terms cancel (`Utils.SobelXIgnoresRowBelow`). The textbook Sobel kernel is not claimed.
