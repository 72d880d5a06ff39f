/**
 * The labelling half of `BlobPlayerExtractor::extract_player_from_frame`:
 * one raster pass that gives every foreground pixel a provisional label by
 * looking at the labels already written in a square window around it, then a
 * second pass that replaces each provisional label by the least label of its
 * recorded equivalence set and counts the pixels of each resulting label.
 *
 * The equivalence sets are merged only along the labels seen together in one
 * window; no transitive closure is taken, and nothing here claims that the
 * final labels are the connected components of the mask.
 */
module BlobLabeller {
  import opened Shapes
  import opened IntSets

  /** Side parameter of the search window; the window spans offsets -10..10, i.e. 21 cells per axis. */
  const BUFFER_SIZE := 20
  const HALF := BUFFER_SIZE / 2

  predicate InGrid(rows: int, cols: int, r: int, c: int)
  {
    0 <= r < rows && 0 <= c < cols
  }

  /** `clamp`: true exactly when (row, col) lies off the grid, i.e. must not be read. */
  function Clamp(rows: int, cols: int, row: int, col: int): (outside: bool)
    ensures outside <==> !InGrid(rows, cols, row, col)
  {
    row < 0 || row >= rows || col < 0 || col >= cols
  }

  /** Raster order: cell (r, c) is visited before cell (row, col). */
  predicate Before(r: int, c: int, row: int, col: int)
  {
    r < row || (r == row && c < col)
  }

  /**
   * The nonzero labels in the window around (row, col) among the offsets the
   * scan has reached: every column offset below `bc`, and in column `bc` every
   * row offset below `br` (the scan's outer loop runs over columns).
   */
  ghost predicate Reached(row: int, col: int, bc: int, br: int, r: int, c: int)
  {
    && row - HALF <= r <= row + HALF && col - HALF <= c <= col + HALF
    && (c - col < bc || (c - col == bc && r - row < br))
  }

  ghost function WindowPart(labels: array2<int>, row: int, col: int, bc: int, br: int): set<int>
    reads labels
  {
    set r, c | 0 <= r < labels.Length0 && 0 <= c < labels.Length1 && Reached(row, col, bc, br, r, c) && labels[r, c] != 0
      :: labels[r, c]
  }

  /** The nonzero labels in the whole window around (row, col): the `neighbours` set. */
  ghost function WindowLabels(labels: array2<int>, row: int, col: int): set<int>
    reads labels
  {
    WindowPart(labels, row, col, HALF + 1, -HALF)
  }

  lemma WindowPartStep(labels: array2<int>, row: int, col: int, bc: int, br: int)
    requires -HALF <= bc <= HALF && -HALF <= br <= HALF
    ensures WindowPart(labels, row, col, bc, br + 1)
         == WindowPart(labels, row, col, bc, br)
            + (if InGrid(labels.Length0, labels.Length1, row + br, col + bc) && labels[row + br, col + bc] != 0
               then {labels[row + br, col + bc]} else {})
  {
    var rows, cols := labels.Length0, labels.Length1;
    var before, after := WindowPart(labels, row, col, bc, br), WindowPart(labels, row, col, bc, br + 1);
    var extra := if InGrid(rows, cols, row + br, col + bc) && labels[row + br, col + bc] != 0
                 then {labels[row + br, col + bc]} else {};
    forall x | x in after ensures x in before + extra {
      var r, c :| 0 <= r < rows && 0 <= c < cols && Reached(row, col, bc, br + 1, r, c) && labels[r, c] == x;
      if !Reached(row, col, bc, br, r, c) {
        assert r == row + br && c == col + bc;
      }
    }
    forall x | x in before ensures x in after {
      var r, c :| 0 <= r < rows && 0 <= c < cols && Reached(row, col, bc, br, r, c) && labels[r, c] == x;
      assert Reached(row, col, bc, br + 1, r, c);
    }
    if extra != {} {
      assert Reached(row, col, bc, br + 1, row + br, col + bc);
    }
  }

  lemma WindowPartNextColumn(labels: array2<int>, row: int, col: int, bc: int)
    ensures WindowPart(labels, row, col, bc, HALF + 1) == WindowPart(labels, row, col, bc + 1, -HALF)
  {
    forall r, c | 0 <= r < labels.Length0 && 0 <= c < labels.Length1 && labels[r, c] != 0
      ensures Reached(row, col, bc, HALF + 1, r, c) <==> Reached(row, col, bc + 1, -HALF, r, c)
    {
    }
  }

  lemma WindowPartEmpty(labels: array2<int>, row: int, col: int)
    ensures WindowPart(labels, row, col, -HALF, -HALF) == {}
  {
  }

  /** `smallest` is the least of `neighbours`, or the largest `int` while there is none. */
  predicate Smallest(neighbours: set<int>, smallest: int)
  {
    && (neighbours == {} ==> smallest == INT_MAX)
    && (neighbours != {} ==> IsMin(neighbours, smallest))
  }

  /** Seeing one more label keeps the running minimum. */
  lemma SmallestAdd(neighbours: set<int>, smallest: int, found: int)
    requires Smallest(neighbours, smallest) && found <= INT_MAX
    ensures Smallest(neighbours + {found}, if found < smallest then found else smallest)
  {
  }

  /** The running minimum of a nonempty set is its `SetMin`. */
  lemma SmallestIsSetMin(neighbours: set<int>, smallest: int)
    requires Smallest(neighbours, smallest) && neighbours != {}
    ensures smallest == SetMin(neighbours)
  {
    var m := SetMin(neighbours);
    assert m <= smallest && smallest <= m;
  }

  /** The inner loop of the window scan: offsets -10..10 down column `bufferCol` of the window. */
  method ScanWindowColumn(labels: array2<int>, row: int, col: int, bufferCol: int, neighbours: set<int>, smallest: int)
    returns (neighbours': set<int>, smallest': int)
    requires forall r, c :: 0 <= r < labels.Length0 && 0 <= c < labels.Length1 ==> labels[r, c] <= INT_MAX
    requires -HALF <= bufferCol <= HALF
    requires neighbours == WindowPart(labels, row, col, bufferCol, -HALF) && Smallest(neighbours, smallest)
    ensures neighbours' == WindowPart(labels, row, col, bufferCol + 1, -HALF) && Smallest(neighbours', smallest')
  {
    var rows, cols := labels.Length0, labels.Length1;
    neighbours', smallest' := neighbours, smallest;
    var bufferRow := -HALF;
    while bufferRow <= HALF
      invariant -HALF <= bufferRow <= HALF + 1
      invariant neighbours' == WindowPart(labels, row, col, bufferCol, bufferRow)
      invariant Smallest(neighbours', smallest')
    {
      WindowPartStep(labels, row, col, bufferCol, bufferRow);
      if !Clamp(rows, cols, row + bufferRow, col + bufferCol) {
        if labels[row + bufferRow, col + bufferCol] != 0 {
          var found := labels[row + bufferRow, col + bufferCol];
          SmallestAdd(neighbours', smallest', found);
          neighbours' := neighbours' + {found};
          smallest' := if found < smallest' then found else smallest';
        }
      }
      bufferRow := bufferRow + 1;
    }
    WindowPartNextColumn(labels, row, col, bufferCol);
  }

  /**
   * The window scan of the labelling pass: collects the nonzero labels
   * around (row, col), reading only cells that `Clamp` lets through, and
   * their least value, starting from the largest `int`.
   */
  method ScanWindow(labels: array2<int>, row: int, col: int) returns (neighbours: set<int>, smallest: int)
    requires forall r, c :: 0 <= r < labels.Length0 && 0 <= c < labels.Length1 ==> labels[r, c] <= INT_MAX
    ensures neighbours == WindowLabels(labels, row, col)
    ensures neighbours == {} ==> smallest == INT_MAX
    ensures neighbours != {} ==> smallest == SetMin(neighbours)
  {
    neighbours := {};
    smallest := INT_MAX;
    WindowPartEmpty(labels, row, col);
    var bufferCol := -HALF;
    while bufferCol <= HALF
      invariant -HALF <= bufferCol <= HALF + 1
      invariant neighbours == WindowPart(labels, row, col, bufferCol, -HALF)
      invariant Smallest(neighbours, smallest)
    {
      neighbours, smallest := ScanWindowColumn(labels, row, col, bufferCol, neighbours, smallest);
      bufferCol := bufferCol + 1;
    }
    if neighbours != {} {
      SmallestIsSetMin(neighbours, smallest);
    }
  }

  /** `labelMap[k]` read through `operator[]`: an absent key reads as the empty set. */
  function Equivalents(labelMap: map<int, set<int>>, k: int): (e: set<int>)
    ensures k in labelMap ==> e == labelMap[k]
    ensures k !in labelMap ==> e == {}
  {
    if k in labelMap then labelMap[k] else {}
  }

  /**
   * `after` is `before` once every label of `neighbours` has absorbed all of
   * `neighbours` and `smallest`, and `smallest` has absorbed itself; no other
   * entry changes.
   */
  ghost predicate Merged(before: map<int, set<int>>, neighbours: set<int>, smallest: int, after: map<int, set<int>>)
  {
    && after.Keys == before.Keys + neighbours + {smallest}
    && (forall k :: k in neighbours ==> after[k] == Equivalents(before, k) + neighbours + {smallest})
    && (smallest !in neighbours ==> after[smallest] == Equivalents(before, smallest) + {smallest})
    && (forall k :: k in before && k !in neighbours && k != smallest ==> after[k] == before[k])
  }

  /**
   * The merge step of a pixel with labelled neighbours: for each neighbour
   * label, insert every neighbour label and the smallest one into its set;
   * finally insert the smallest label into its own set. The sets are visited
   * in an arbitrary order, which does not change the result.
   */
  method MergeNeighbours(labelMap: map<int, set<int>>, neighbours: set<int>, smallest: int)
    returns (merged: map<int, set<int>>)
    ensures Merged(labelMap, neighbours, smallest, merged)
    ensures merged == MergeOf(labelMap, neighbours, smallest)
  {
    merged := labelMap;
    var todo := neighbours;
    while todo != {}
      invariant todo <= neighbours
      invariant merged.Keys == labelMap.Keys + (neighbours - todo)
      invariant forall k :: k in neighbours - todo ==> merged[k] == Equivalents(labelMap, k) + neighbours + {smallest}
      invariant forall k :: k in labelMap && k !in neighbours - todo ==> merged[k] == labelMap[k]
      decreases todo
    {
      Inhabited(todo);
      var tmp :| tmp in todo;
      var equivalents := Equivalents(merged, tmp);
      assert equivalents == Equivalents(labelMap, tmp);
      var pending := neighbours;
      while pending != {}
        invariant pending <= neighbours
        invariant equivalents == Equivalents(labelMap, tmp) + (neighbours - pending)
        decreases pending
      {
        Inhabited(pending);
        var tmp2 :| tmp2 in pending;
        equivalents := equivalents + {tmp2};
        pending := pending - {tmp2};
      }
      merged := merged[tmp := equivalents + {smallest}];
      todo := todo - {tmp};
    }
    merged := merged[smallest := Equivalents(merged, smallest) + {smallest}];
    MergedUnique(labelMap, neighbours, smallest, merged);
  }

  /** The equivalence map after the merge of lines 53-60, as a value. */
  ghost function MergeOf(before: map<int, set<int>>, neighbours: set<int>, smallest: int): (after: map<int, set<int>>)
    ensures Merged(before, neighbours, smallest, after)
  {
    map k | k in before.Keys + neighbours + {smallest} ::
      if k in neighbours then Equivalents(before, k) + neighbours + {smallest}
      else if k == smallest then Equivalents(before, smallest) + {smallest}
      else before[k]
  }

  /** `Merged` fixes the map after the merge: it is `MergeOf`. */
  lemma MergedUnique(before: map<int, set<int>>, neighbours: set<int>, smallest: int, after: map<int, set<int>>)
    requires Merged(before, neighbours, smallest, after)
    ensures after == MergeOf(before, neighbours, smallest)
  {
    var spec := MergeOf(before, neighbours, smallest);
    assert after.Keys == spec.Keys;
    forall k | k in after ensures after[k] == spec[k] {
    }
  }

  /**
   * The equivalence map's part of the pass invariant: every key lies in
   * [1, currentLabel), belongs to its own set, and has a set drawn from that range.
   */
  ghost predicate MapInvariant(labelMap: map<int, set<int>>, currentLabel: int)
  {
    && (forall k :: k in labelMap ==> 1 <= k < currentLabel && k in labelMap[k])
    && (forall k, x :: k in labelMap && x in labelMap[k] ==> 1 <= x < currentLabel)
  }

  /**
   * One cell's part of the pass invariant once every cell before (row, col)
   * is visited: a visited foreground cell carries a label in [1, currentLabel)
   * that is a key of the map, any other cell is still 0.
   */
  predicate CellOk(foreground: bool, v: int, keys: set<int>, currentLabel: int, r: int, c: int, row: int, col: int)
  {
    if Before(r, c, row, col) && foreground then 1 <= v < currentLabel && v in keys else v == 0
  }

  /** The grid's part of the pass invariant: every cell is as `CellOk` says. */
  ghost predicate GridInvariant(mask: array2<bool>, labels: array2<int>, keys: set<int>,
                                currentLabel: int, row: int, col: int)
    reads mask, labels
    requires labels.Length0 == mask.Length0 && labels.Length1 == mask.Length1
  {
    forall r, c :: 0 <= r < mask.Length0 && 0 <= c < mask.Length1 ==>
      CellOk(mask[r, c], labels[r, c], keys, currentLabel, r, c, row, col)
  }

  /** A cell other than (row, col) that keeps its label stays as `CellOk` says as the scan moves on and the map grows. */
  lemma CellOkLater(foreground: bool, v: int, keys: set<int>, keys': set<int>, currentLabel: int, nextLabel: int,
                    r: int, c: int, row: int, col: int)
    requires CellOk(foreground, v, keys, currentLabel, r, c, row, col)
    requires keys <= keys' && currentLabel <= nextLabel && (r, c) != (row, col)
    ensures CellOk(foreground, v, keys', nextLabel, r, c, row, col + 1)
  {
  }

  /** What holds once the labelling pass has visited every cell before (row, col). */
  ghost predicate PassInvariant(mask: array2<bool>, labels: array2<int>, labelMap: map<int, set<int>>,
                                currentLabel: int, row: int, col: int)
    reads mask, labels
  {
    && labels.Length0 == mask.Length0 && labels.Length1 == mask.Length1
    && 1 <= currentLabel
    && GridInvariant(mask, labels, labelMap.Keys, currentLabel, row, col)
    && MapInvariant(labelMap, currentLabel)
  }

  /** Past the last column of a row, the grid invariant reads as at the start of the next row. */
  lemma GridInvariantNextRow(mask: array2<bool>, labels: array2<int>, keys: set<int>, currentLabel: int, row: int)
    requires labels.Length0 == mask.Length0 && labels.Length1 == mask.Length1
    requires GridInvariant(mask, labels, keys, currentLabel, row, mask.Length1)
    ensures GridInvariant(mask, labels, keys, currentLabel, row + 1, 0)
  {
    forall r, c | 0 <= r < mask.Length0 && 0 <= c < mask.Length1
      ensures CellOk(mask[r, c], labels[r, c], keys, currentLabel, r, c, row + 1, 0)
    {
      assert Before(r, c, row, mask.Length1) == Before(r, c, row + 1, 0);
    }
  }

  /** Registering a fresh label as its own class keeps the map invariant. */
  lemma FreshLabelKeepsMapInvariant(labelMap: map<int, set<int>>, currentLabel: int)
    requires 1 <= currentLabel
    requires MapInvariant(labelMap, currentLabel)
    ensures currentLabel !in labelMap
    ensures MapInvariant(labelMap[currentLabel := {currentLabel}], currentLabel + 1)
  {
    var m := labelMap[currentLabel := {currentLabel}];
    forall k, x | k in m && x in m[k] ensures 1 <= x < currentLabel + 1 {
      if k != currentLabel {
        assert k in labelMap && x in labelMap[k];
      } else {
        assert x == currentLabel;
      }
    }
  }

  /** Merging the neighbours of a pixel keeps the map invariant and registers every neighbour. */
  lemma MergeKeepsMapInvariant(labelMap: map<int, set<int>>, currentLabel: int,
                               neighbours: set<int>, smallest: int, merged: map<int, set<int>>)
    requires MapInvariant(labelMap, currentLabel)
    requires forall x :: x in neighbours ==> 1 <= x < currentLabel
    requires smallest in neighbours
    requires Merged(labelMap, neighbours, smallest, merged)
    ensures MapInvariant(merged, currentLabel)
    ensures labelMap.Keys + neighbours == merged.Keys
  {
  }

  /** Every label the window can see is a registered label of a visited foreground cell. */
  lemma WindowLabelsRegistered(mask: array2<bool>, labels: array2<int>, labelMap: map<int, set<int>>,
                               currentLabel: int, row: int, col: int)
    requires PassInvariant(mask, labels, labelMap, currentLabel, row, col)
    ensures forall x :: x in WindowLabels(labels, row, col) ==> 1 <= x < currentLabel && x in labelMap
  {
    forall x | x in WindowLabels(labels, row, col) ensures 1 <= x < currentLabel && x in labelMap {
      var r, c :| 0 <= r < labels.Length0 && 0 <= c < labels.Length1
                  && Reached(row, col, HALF + 1, -HALF, r, c) && labels[r, c] != 0 && labels[r, c] == x;
    }
  }

  /**
   * Lines 30-62 for one cell: a background cell is left alone; a foreground
   * cell with no labelled neighbour takes the fresh label `currentLabel`,
   * which is registered as its own class and then bumped; otherwise the cell
   * takes the least neighbour label and the neighbours' sets are merged.
   */
  method LabelPixel(mask: array2<bool>, labels: array2<int>, row: int, col: int,
                    labelMap: map<int, set<int>>, currentLabel: int)
    returns (newMap: map<int, set<int>>, nextLabel: int)
    requires 0 <= row < mask.Length0 && 0 <= col < mask.Length1
    requires PassInvariant(mask, labels, labelMap, currentLabel, row, col)
    requires currentLabel < INT_MAX
    modifies labels
    ensures PassInvariant(mask, labels, newMap, nextLabel, row, col + 1)
    ensures forall r, c :: 0 <= r < labels.Length0 && 0 <= c < labels.Length1 && (r, c) != (row, col) ==>
              labels[r, c] == old(labels[r, c])
    ensures !mask[row, col] ==> labels[row, col] == 0 && newMap == labelMap && nextLabel == currentLabel
    ensures mask[row, col] && old(WindowLabels(labels, row, col)) == {} ==>
              && labels[row, col] == currentLabel
              && nextLabel == currentLabel + 1
              && currentLabel !in labelMap
              && newMap == labelMap[currentLabel := {currentLabel}]
    ensures mask[row, col] && old(WindowLabels(labels, row, col)) != {} ==>
              && labels[row, col] == SetMin(old(WindowLabels(labels, row, col)))
              && nextLabel == currentLabel
              && Merged(labelMap, old(WindowLabels(labels, row, col)), labels[row, col], newMap)
  {
    newMap, nextLabel := labelMap, currentLabel;
    if mask[row, col] {
      WindowLabelsRegistered(mask, labels, labelMap, currentLabel, row, col);
      var neighbours, smallest := ScanWindow(labels, row, col);
      if neighbours == {} {
        FreshLabelKeepsMapInvariant(labelMap, currentLabel);
        newMap := labelMap[currentLabel := {currentLabel}];
        labels[row, col] := currentLabel;
        nextLabel := currentLabel + 1;
      } else {
        labels[row, col] := smallest;
        newMap := MergeNeighbours(labelMap, neighbours, smallest);
        MergeKeepsMapInvariant(labelMap, currentLabel, neighbours, smallest, newMap);
      }
      assert labels[row, col] in newMap.Keys;
    }
    forall r, c | 0 <= r < mask.Length0 && 0 <= c < mask.Length1 && (r, c) != (row, col)
      ensures CellOk(mask[r, c], labels[r, c], newMap.Keys, nextLabel, r, c, row, col + 1)
    {
      CellOkLater(mask[r, c], labels[r, c], labelMap.Keys, newMap.Keys, currentLabel, nextLabel, r, c, row, col);
    }
  }

  /** A label grid as a value: the cells written so far, every other cell reading 0 as after `Mat::zeros` (line 21). */
  function At(grid: map<(int, int), int>, r: int, c: int): (v: int)
    ensures (r, c) !in grid ==> v == 0
  {
    if (r, c) in grid then grid[(r, c)] else 0
  }

  /** The array holds the grid value, cell for cell. */
  ghost predicate Matches(labels: array2<int>, grid: map<(int, int), int>)
    reads labels
  {
    forall r, c :: 0 <= r < labels.Length0 && 0 <= c < labels.Length1 ==> labels[r, c] == At(grid, r, c)
  }

  /** The nonzero labels of a grid value in the window around (row, col), within a `rows` by `cols` grid. */
  ghost function WindowOf(grid: map<(int, int), int>, rows: int, cols: int, row: int, col: int): set<int>
  {
    set r, c | 0 <= r < rows && 0 <= c < cols && row - HALF <= r <= row + HALF && col - HALF <= c <= col + HALF
                 && At(grid, r, c) != 0 :: At(grid, r, c)
  }

  /** The window of the array is the window of the grid value it holds. */
  lemma WindowMatches(labels: array2<int>, grid: map<(int, int), int>, row: int, col: int)
    requires Matches(labels, grid)
    ensures WindowLabels(labels, row, col) == WindowOf(grid, labels.Length0, labels.Length1, row, col)
  {
    var inArray := WindowLabels(labels, row, col);
    var inGrid := WindowOf(grid, labels.Length0, labels.Length1, row, col);
    forall x | x in inArray ensures x in inGrid {
      var r, c :| 0 <= r < labels.Length0 && 0 <= c < labels.Length1
                  && Reached(row, col, HALF + 1, -HALF, r, c) && labels[r, c] != 0 && labels[r, c] == x;
      assert At(grid, r, c) == x;
    }
    forall x | x in inGrid ensures x in inArray {
      var r, c :| 0 <= r < labels.Length0 && 0 <= c < labels.Length1
                  && row - HALF <= r <= row + HALF && col - HALF <= c <= col + HALF && At(grid, r, c) != 0 && At(grid, r, c) == x;
      assert Reached(row, col, HALF + 1, -HALF, r, c) && labels[r, c] == x;
    }
  }

  /** The state of the labelling pass as values: the label grid, the equivalence map and the next fresh label. */
  datatype PassState = PassState(grid: map<(int, int), int>, labelMap: map<int, set<int>>, currentLabel: int)

  /**
   * Lines 30-62 on values: visiting (row, col). A background cell changes
   * nothing. A foreground cell with no labelled neighbour takes the next
   * fresh label, which `insert` registers as its own class, and the counter
   * moves on; otherwise it takes the least neighbour label and the
   * neighbours' sets are merged.
   */
  ghost function StepCell(mask: array2<bool>, s: PassState, row: int, col: int): (s': PassState)
    reads mask
    requires 0 <= row < mask.Length0 && 0 <= col < mask.Length1
    ensures forall r, c :: (r, c) != (row, col) ==> At(s'.grid, r, c) == At(s.grid, r, c)
    ensures s.currentLabel <= s'.currentLabel <= s.currentLabel + 1
  {
    if !mask[row, col] then s
    else
      var neighbours := WindowOf(s.grid, mask.Length0, mask.Length1, row, col);
      if neighbours == {} then
        var newLabel := s.currentLabel;
        PassState(s.grid[(row, col) := newLabel],
                  if newLabel in s.labelMap then s.labelMap else s.labelMap[newLabel := {newLabel}],
                  newLabel + 1)
      else
        var smallest := SetMin(neighbours);
        PassState(s.grid[(row, col) := smallest], MergeOf(s.labelMap, neighbours, smallest), s.currentLabel)
  }

  /**
   * Lines 18-64 on values: the state once every cell before (row, col) in
   * raster order has been visited, from a zero grid, an empty map and label 1.
   */
  ghost function Pass(mask: array2<bool>, row: int, col: int): (p: PassState)
    reads mask
    requires 0 <= row <= mask.Length0 && 0 <= col <= mask.Length1
    requires row < mask.Length0 || col == 0
    ensures 1 <= p.currentLabel
    ensures forall r, c :: !Before(r, c, row, col) ==> At(p.grid, r, c) == 0
    decreases row, col
  {
    if col > 0 then StepCell(mask, Pass(mask, row, col - 1), row, col - 1)
    else if row > 0 then Pass(mask, row - 1, mask.Length1)
    else PassState(map[], map[], 1)
  }

  /** The state after the whole labelling pass. */
  ghost function Labelling(mask: array2<bool>): PassState
    reads mask
  {
    Pass(mask, mask.Length0, 0)
  }

  /** One cell of the raster pass: `LabelPixel`, which follows `StepCell` on the grid value the array holds. */
  method LabelCell(mask: array2<bool>, labels: array2<int>, row: int, col: int,
                   labelMap: map<int, set<int>>, currentLabel: int, ghost grid: map<(int, int), int>)
    returns (newMap: map<int, set<int>>, nextLabel: int, ghost grid': map<(int, int), int>)
    requires 0 <= row < mask.Length0 && 0 <= col < mask.Length1
    requires PassInvariant(mask, labels, labelMap, currentLabel, row, col)
    requires currentLabel < INT_MAX
    requires Matches(labels, grid)
    modifies labels
    ensures PassInvariant(mask, labels, newMap, nextLabel, row, col + 1)
    ensures StepCell(mask, PassState(grid, labelMap, currentLabel), row, col) == PassState(grid', newMap, nextLabel)
    ensures Matches(labels, grid')
  {
    WindowMatches(labels, grid, row, col);
    ghost var window := WindowLabels(labels, row, col);
    ghost var step := StepCell(mask, PassState(grid, labelMap, currentLabel), row, col);
    newMap, nextLabel := LabelPixel(mask, labels, row, col, labelMap, currentLabel);
    grid' := step.grid;
    if mask[row, col] && window != {} {
      MergedUnique(labelMap, window, labels[row, col], newMap);
    }
    forall r, c | 0 <= r < labels.Length0 && 0 <= c < labels.Length1
      ensures labels[r, c] == At(grid', r, c)
    {
      if (r, c) != (row, col) {
        assert labels[r, c] == old(labels[r, c]);
      }
    }
  }

  /** The raster index of a cell stays below the number of cells; past a row it is the next row's first index. */
  lemma CellIndexBound(rows: int, cols: int, row: int, col: int)
    requires 0 <= row < rows && 0 <= col <= cols
    ensures col < cols ==> row * cols + col + 1 <= rows * cols
    ensures row * cols + cols == (row + 1) * cols
  {
    assert (row + 1) * cols <= rows * cols;
  }

  /**
   * Lines 28-64: the raster pass over a zeroed label grid. Afterwards every
   * foreground cell carries a registered label in [1, currentLabel), every
   * background cell is still 0, and at most one label was issued per cell.
   */
  method LabelPass(mask: array2<bool>, labels: array2<int>) returns (labelMap: map<int, set<int>>, currentLabel: int)
    requires labels.Length0 == mask.Length0 && labels.Length1 == mask.Length1
    requires mask.Length0 * mask.Length1 < INT_MAX
    requires forall r, c :: 0 <= r < labels.Length0 && 0 <= c < labels.Length1 ==> labels[r, c] == 0
    modifies labels
    ensures PassInvariant(mask, labels, labelMap, currentLabel, mask.Length0, 0)
    ensures currentLabel <= mask.Length0 * mask.Length1 + 1
    ensures Matches(labels, Labelling(mask).grid)
    ensures labelMap == Labelling(mask).labelMap && currentLabel == Labelling(mask).currentLabel
  {
    var rows, cols := mask.Length0, mask.Length1;
    labelMap, currentLabel := map[], 1;
    ghost var grid: map<(int, int), int> := map[];
    var row := 0;
    while row < rows
      invariant 0 <= row <= rows
      invariant PassInvariant(mask, labels, labelMap, currentLabel, row, 0)
      invariant currentLabel <= row * cols + 1
      invariant Matches(labels, grid)
      invariant Pass(mask, row, 0) == PassState(grid, labelMap, currentLabel)
    {
      var col := 0;
      while col < cols
        invariant 0 <= col <= cols
        invariant PassInvariant(mask, labels, labelMap, currentLabel, row, col)
        invariant currentLabel <= row * cols + col + 1
        invariant Matches(labels, grid)
        invariant Pass(mask, row, col) == PassState(grid, labelMap, currentLabel)
      {
        CellIndexBound(rows, cols, row, col);
        labelMap, currentLabel, grid := LabelCell(mask, labels, row, col, labelMap, currentLabel, grid);
        col := col + 1;
      }
      CellIndexBound(rows, cols, row, col);
      GridInvariantNextRow(mask, labels, labelMap.Keys, currentLabel, row);
      row := row + 1;
    }
  }

  /**
   * After the whole pass every foreground cell carries a label that is a key
   * of the map with a nonempty set of equivalents (the label itself), and
   * every background cell is 0.
   */
  lemma PassComplete(mask: array2<bool>, labels: array2<int>, labelMap: map<int, set<int>>, currentLabel: int)
    requires PassInvariant(mask, labels, labelMap, currentLabel, mask.Length0, 0)
    ensures forall r, c :: 0 <= r < mask.Length0 && 0 <= c < mask.Length1 && mask[r, c] ==>
              labels[r, c] in labelMap && labels[r, c] in labelMap[labels[r, c]]
    ensures forall r, c :: 0 <= r < mask.Length0 && 0 <= c < mask.Length1 && !mask[r, c] ==> labels[r, c] == 0
  {
    forall r, c | 0 <= r < mask.Length0 && 0 <= c < mask.Length1
      ensures mask[r, c] ==> labels[r, c] in labelMap && labels[r, c] in labelMap[labels[r, c]]
      ensures !mask[r, c] ==> labels[r, c] == 0
    {
      assert Before(r, c, mask.Length0, 0);
      assert CellOk(mask[r, c], labels[r, c], labelMap.Keys, currentLabel, r, c, mask.Length0, 0);
    }
  }

  /** The foreground cells of the mask. */
  ghost function ForegroundCells(mask: array2<bool>): set<(int, int)>
    reads mask
  {
    set r, c | 0 <= r < mask.Length0 && 0 <= c < mask.Length1 && mask[r, c] :: (r, c)
  }

  /** The foreground cells that carry label `k`. */
  ghost function LabelledCells(mask: array2<bool>, labels: array2<int>, k: int): set<(int, int)>
    reads mask, labels
    requires labels.Length0 == mask.Length0 && labels.Length1 == mask.Length1
  {
    set r, c | 0 <= r < mask.Length0 && 0 <= c < mask.Length1 && mask[r, c] && labels[r, c] == k :: (r, c)
  }

  /** `ForegroundCells` holds exactly the in-grid cells the mask sets. */
  lemma ForegroundCellsMembers(mask: array2<bool>)
    ensures forall p :: p in ForegroundCells(mask) <==> 0 <= p.0 < mask.Length0 && 0 <= p.1 < mask.Length1 && mask[p.0, p.1]
  {
    forall p: (int, int) | 0 <= p.0 < mask.Length0 && 0 <= p.1 < mask.Length1 && mask[p.0, p.1] ensures p in ForegroundCells(mask) {
      assert p == (p.0, p.1);
    }
  }

  /** A set of foreground cells described pointwise as those labelled `k` is `LabelledCells(.., k)`. */
  lemma CellsOfLabel(mask: array2<bool>, labels: array2<int>, done: set<(int, int)>,
                     labelOf: map<(int, int), int>, cells: set<(int, int)>, k: int)
    requires labels.Length0 == mask.Length0 && labels.Length1 == mask.Length1
    requires forall p :: p in done <==> 0 <= p.0 < mask.Length0 && 0 <= p.1 < mask.Length1 && mask[p.0, p.1]
    requires Relabelled(labels, done, labelOf)
    requires forall p :: p in cells <==> p in done && labelOf[p] == k
    ensures cells == LabelledCells(mask, labels, k)
  {
    var expected := LabelledCells(mask, labels, k);
    forall p | p in cells ensures p in expected {
      assert p == (p.0, p.1);
    }
    forall p | p in expected ensures p in cells {
      var r, c :| 0 <= r < mask.Length0 && 0 <= c < mask.Length1 && mask[r, c] && labels[r, c] == k && p == (r, c);
    }
  }

  /**
   * The bookkeeping of the canonicalisation pass once every cell before
   * (row, col) is visited: `done` holds the visited cells of `foreground`,
   * `labelOf` their new labels, `cellsOf[k]` those of them now labelled `k`,
   * `blobSizes[k]` counts them, and the counts add up to the visited
   * foreground cells.
   */
  ghost predicate Counted(foreground: set<(int, int)>, cols: int, blobSizes: map<int, int>, done: set<(int, int)>,
                          labelOf: map<(int, int), int>, cellsOf: map<int, set<(int, int)>>, row: int, col: int)
  {
    && (forall p :: p in foreground ==> 0 <= p.1 < cols)
    && (forall p :: p in done <==> p in foreground && Before(p.0, p.1, row, col))
    && (forall p :: p in done ==> p in labelOf && labelOf[p] in blobSizes)
    && cellsOf.Keys == blobSizes.Keys
    && (forall k :: k in blobSizes ==> blobSizes[k] == |cellsOf[k]| >= 1)
    && (forall k, p :: k in cellsOf ==> (p in cellsOf[k] <==> p in done && labelOf[p] == k))
    && Sum(blobSizes) == |done|
  }

  /** The canonical sizes after counting `cell` under the label `canonical` (lines 82-84). */
  function CountCell(blobSizes: map<int, int>, canonical: int): (sizes: map<int, int>)
    ensures sizes.Keys == blobSizes.Keys + {canonical}
    ensures sizes[canonical] == Lookup(blobSizes, canonical) + 1
    ensures forall k :: k in blobSizes && k != canonical ==> sizes[k] == blobSizes[k]
  {
    blobSizes[canonical := Lookup(blobSizes, canonical) + 1]
  }

  /** Counting one more foreground cell keeps the counts equal to the cells counted. */
  lemma CountedStepSizes(blobSizes: map<int, int>, done: set<(int, int)>, labelOf: map<(int, int), int>,
                         cellsOf: map<int, set<(int, int)>>, cell: (int, int), canonical: int,
                         sizes: map<int, int>, cellsOf': map<int, set<(int, int)>>)
    requires cell !in done
    requires forall p :: p in done ==> p in labelOf
    requires cellsOf.Keys == blobSizes.Keys
    requires forall k :: k in blobSizes ==> blobSizes[k] == |cellsOf[k]| >= 1
    requires forall k, p :: k in cellsOf ==> (p in cellsOf[k] <==> p in done && labelOf[p] == k)
    requires sizes == CountCell(blobSizes, canonical)
    requires cellsOf' == cellsOf[canonical := Cells(cellsOf, canonical) + {cell}]
    ensures cellsOf'.Keys == sizes.Keys
    ensures forall k :: k in sizes ==> sizes[k] == |cellsOf'[k]| >= 1
  {
    var counted := Cells(cellsOf, canonical);
    assert cell !in counted;
    assert canonical !in blobSizes ==> counted == {};
    assert |counted + {cell}| == |counted| + 1;
  }

  /** Counting one more foreground cell keeps the pointwise description of the counted cells. */
  lemma CountedStepCells(done: set<(int, int)>, labelOf: map<(int, int), int>,
                         cellsOf: map<int, set<(int, int)>>, cell: (int, int), canonical: int,
                         done': set<(int, int)>, labelOf': map<(int, int), int>, cellsOf': map<int, set<(int, int)>>)
    requires cell !in done
    requires forall p :: p in done ==> p in labelOf && labelOf[p] in cellsOf
    requires forall k, p :: k in cellsOf ==> (p in cellsOf[k] <==> p in done && labelOf[p] == k)
    requires done' == done + {cell}
    requires labelOf' == labelOf[cell := canonical]
    requires cellsOf' == cellsOf[canonical := Cells(cellsOf, canonical) + {cell}]
    ensures forall p :: p in done' ==> p in labelOf' && labelOf'[p] in cellsOf'
    ensures forall k, p :: k in cellsOf' ==> (p in cellsOf'[k] <==> p in done' && labelOf'[p] == k)
  {
  }

  /** Visiting one more cell extends the visited foreground cells by it when it is foreground. */
  lemma VisitedStep(foreground: set<(int, int)>, done: set<(int, int)>, row: int, col: int)
    requires forall p :: p in done <==> p in foreground && Before(p.0, p.1, row, col)
    ensures (row, col) !in done
    ensures var done' := if (row, col) in foreground then done + {(row, col)} else done;
            forall p :: p in done' <==> p in foreground && Before(p.0, p.1, row, col + 1)
  {
  }

  /** Counting one more foreground cell keeps the bookkeeping. */
  lemma CountedStep(foreground: set<(int, int)>, cols: int, blobSizes: map<int, int>, done: set<(int, int)>,
                    labelOf: map<(int, int), int>, cellsOf: map<int, set<(int, int)>>, row: int, col: int, canonical: int,
                    sizes: map<int, int>, done': set<(int, int)>,
                    labelOf': map<(int, int), int>, cellsOf': map<int, set<(int, int)>>)
    requires (row, col) in foreground
    requires Counted(foreground, cols, blobSizes, done, labelOf, cellsOf, row, col)
    requires sizes == CountCell(blobSizes, canonical)
    requires done' == done + {(row, col)}
    requires labelOf' == labelOf[(row, col) := canonical]
    requires cellsOf' == cellsOf[canonical := Cells(cellsOf, canonical) + {(row, col)}]
    ensures Counted(foreground, cols, sizes, done', labelOf', cellsOf', row, col + 1)
  {
    var cell := (row, col);
    VisitedStep(foreground, done, row, col);
    CountedStepSizes(blobSizes, done, labelOf, cellsOf, cell, canonical, sizes, cellsOf');
    CountedStepCells(done, labelOf, cellsOf, cell, canonical, done', labelOf', cellsOf');
    SumUpdate(blobSizes, canonical, Lookup(blobSizes, canonical) + 1);
    assert forall p :: p in done' ==> labelOf'[p] in sizes;
  }

  /** Skipping a background cell keeps the bookkeeping. */
  lemma CountedSkip(foreground: set<(int, int)>, cols: int, blobSizes: map<int, int>, done: set<(int, int)>,
                    labelOf: map<(int, int), int>, cellsOf: map<int, set<(int, int)>>, row: int, col: int)
    requires (row, col) !in foreground
    requires Counted(foreground, cols, blobSizes, done, labelOf, cellsOf, row, col)
    ensures Counted(foreground, cols, blobSizes, done, labelOf, cellsOf, row, col + 1)
  {
    VisitedStep(foreground, done, row, col);
  }

  /**
   * The ghost bookkeeping of visiting (row, col), whose new label would be
   * `canonical`: a foreground cell is recorded and counted, a background
   * cell changes nothing.
   */
  lemma CountPixel(foreground: set<(int, int)>, cols: int, blobSizes: map<int, int>, done: set<(int, int)>,
                   labelOf: map<(int, int), int>, cellsOf: map<int, set<(int, int)>>, row: int, col: int, canonical: int)
    returns (sizes: map<int, int>, done': set<(int, int)>, labelOf': map<(int, int), int>,
             cellsOf': map<int, set<(int, int)>>)
    requires Counted(foreground, cols, blobSizes, done, labelOf, cellsOf, row, col)
    ensures (row, col) !in done
    ensures sizes == if (row, col) in foreground then CountCell(blobSizes, canonical) else blobSizes
    ensures done' == if (row, col) in foreground then done + {(row, col)} else done
    ensures labelOf' == if (row, col) in foreground then labelOf[(row, col) := canonical] else labelOf
    ensures Counted(foreground, cols, sizes, done', labelOf', cellsOf', row, col + 1)
  {
    var cell := (row, col);
    VisitedStep(foreground, done, row, col);
    if cell in foreground {
      sizes := CountCell(blobSizes, canonical);
      done' := done + {cell};
      labelOf' := labelOf[cell := canonical];
      cellsOf' := cellsOf[canonical := Cells(cellsOf, canonical) + {cell}];
      CountedStep(foreground, cols, blobSizes, done, labelOf, cellsOf, row, col, canonical, sizes, done', labelOf', cellsOf');
    } else {
      sizes, done', labelOf', cellsOf' := blobSizes, done, labelOf, cellsOf;
      CountedSkip(foreground, cols, blobSizes, done, labelOf, cellsOf, row, col);
    }
  }

  /** The cells counted under `k` so far, none if `k` has no entry yet. */
  function Cells(cellsOf: map<int, set<(int, int)>>, k: int): set<(int, int)>
  {
    if k in cellsOf then cellsOf[k] else {}
  }

  /**
   * `*labelMap[v].begin()`: the least label recorded as equivalent to `v`.
   * The pass only looks up registered labels, whose sets are nonempty; any
   * other value is left as it is.
   */
  function Canonical(labelMap: map<int, set<int>>, v: int): (c: int)
    ensures v in labelMap && labelMap[v] != {} ==> c in labelMap[v] && forall y :: y in labelMap[v] ==> c <= y
  {
    if v in labelMap && labelMap[v] != {} then SetMin(labelMap[v]) else v
  }

  /** A cell's label `after` the canonicalisation pass, from its label `before` it, when the pass rewrites it or not. */
  predicate Rewritten(labelMap: map<int, set<int>>, rewrite: bool, before: int, after: int)
  {
    after == if rewrite then Canonical(labelMap, before) else before
  }

  /** The grid carries the recorded new label of every visited foreground cell. */
  ghost predicate Relabelled(labels: array2<int>, done: set<(int, int)>, labelOf: map<(int, int), int>)
    reads labels
  {
    forall p :: p in done ==> p in labelOf && 0 <= p.0 < labels.Length0 && 0 <= p.1 < labels.Length1 && labels[p.0, p.1] == labelOf[p]
  }

  /**
   * Lines 70-85 for one cell: a foreground cell takes the least label of its
   * provisional label's set and that label's count goes up by one (from 0
   * when it has no count yet); a background cell changes nothing.
   */
  method CanonicalisePixel(mask: array2<bool>, labels: array2<int>, labelMap: map<int, set<int>>, row: int, col: int,
                           blobSizes: map<int, int>, ghost done: set<(int, int)>, ghost labelOf: map<(int, int), int>)
    returns (sizes: map<int, int>)
    requires labels.Length0 == mask.Length0 && labels.Length1 == mask.Length1
    requires 0 <= row < mask.Length0 && 0 <= col < mask.Length1
    requires (row, col) !in done
    requires Relabelled(labels, done, labelOf)
    modifies labels
    ensures Rewritten(labelMap, mask[row, col], old(labels[row, col]), labels[row, col])
    ensures sizes == if mask[row, col] then CountCell(blobSizes, labels[row, col]) else blobSizes
    ensures forall r, c :: 0 <= r < mask.Length0 && 0 <= c < mask.Length1 && (r, c) != (row, col) ==>
              labels[r, c] == old(labels[r, c])
    ensures mask[row, col] ==> Relabelled(labels, done + {(row, col)}, labelOf[(row, col) := labels[row, col]])
    ensures !mask[row, col] ==> Relabelled(labels, done, labelOf)
  {
    sizes := blobSizes;
    if mask[row, col] {
      var canonical := Canonical(labelMap, labels[row, col]);
      labels[row, col] := canonical;
      var currentSize := 0;
      if canonical in sizes {
        currentSize := sizes[canonical];
      }
      currentSize := currentSize + 1;
      sizes := sizes[canonical := currentSize];
    }
  }

  /** Finishing a row moves the bookkeeping to the start of the next one. */
  lemma CountedNextRow(foreground: set<(int, int)>, cols: int, blobSizes: map<int, int>, done: set<(int, int)>,
                       labelOf: map<(int, int), int>, cellsOf: map<int, set<(int, int)>>, row: int)
    requires Counted(foreground, cols, blobSizes, done, labelOf, cellsOf, row, cols)
    ensures Counted(foreground, cols, blobSizes, done, labelOf, cellsOf, row + 1, 0)
  {
  }

  /** Lines 69-86 for one row of the canonicalisation pass. */
  method CanonicaliseRow(mask: array2<bool>, labels: array2<int>, labelMap: map<int, set<int>>, row: int,
                         blobSizes: map<int, int>, ghost foreground: set<(int, int)>, ghost done: set<(int, int)>,
                         ghost labelOf: map<(int, int), int>, ghost cellsOf: map<int, set<(int, int)>>)
    returns (sizes: map<int, int>, ghost done': set<(int, int)>,
             ghost labelOf': map<(int, int), int>, ghost cellsOf': map<int, set<(int, int)>>)
    requires labels.Length0 == mask.Length0 && labels.Length1 == mask.Length1
    requires 0 <= row < mask.Length0
    requires forall c :: 0 <= c < mask.Length1 ==> (mask[row, c] <==> (row, c) in foreground)
    requires Counted(foreground, mask.Length1, blobSizes, done, labelOf, cellsOf, row, 0)
    requires Relabelled(labels, done, labelOf)
    modifies labels
    ensures Counted(foreground, mask.Length1, sizes, done', labelOf', cellsOf', row + 1, 0)
    ensures Relabelled(labels, done', labelOf')
    ensures forall r, c :: 0 <= r < mask.Length0 && 0 <= c < mask.Length1 ==>
              Rewritten(labelMap, r == row && mask[r, c], old(labels[r, c]), labels[r, c])
  {
    var cols := mask.Length1;
    sizes, done', labelOf', cellsOf' := blobSizes, done, labelOf, cellsOf;
    var col := 0;
    while col < cols
      invariant 0 <= col <= cols
      invariant forall r, c :: 0 <= r < mask.Length0 && 0 <= c < cols ==>
                  Rewritten(labelMap, r == row && c < col && mask[r, c], old(labels[r, c]), labels[r, c])
      invariant Counted(foreground, cols, sizes, done', labelOf', cellsOf', row, col)
      invariant Relabelled(labels, done', labelOf')
    {
      label Visit:
      ghost var done0, labelOf0 := done', labelOf';
      ghost var counted;
      counted, done', labelOf', cellsOf' := CountPixel(foreground, cols, sizes, done', labelOf', cellsOf', row, col,
                                                       Canonical(labelMap, labels[row, col]));
      sizes := CanonicalisePixel(mask, labels, labelMap, row, col, sizes, done0, labelOf0);
      forall r, c | 0 <= r < mask.Length0 && 0 <= c < cols
        ensures Rewritten(labelMap, r == row && c < col + 1 && mask[r, c], old(labels[r, c]), labels[r, c])
      {
        if (r, c) != (row, col) {
          assert labels[r, c] == old@Visit(labels[r, c]);
        }
      }
      col := col + 1;
    }
    CountedNextRow(foreground, cols, sizes, done', labelOf', cellsOf', row);
  }

  /** Once every row is visited, the bookkeeping describes the whole relabelled grid. */
  lemma CountsComplete(mask: array2<bool>, labels: array2<int>, blobSizes: map<int, int>, done: set<(int, int)>,
                       labelOf: map<(int, int), int>, cellsOf: map<int, set<(int, int)>>)
    requires labels.Length0 == mask.Length0 && labels.Length1 == mask.Length1
    requires Counted(ForegroundCells(mask), mask.Length1, blobSizes, done, labelOf, cellsOf, mask.Length0, 0)
    requires Relabelled(labels, done, labelOf)
    ensures forall r, c :: 0 <= r < mask.Length0 && 0 <= c < mask.Length1 && mask[r, c] ==> labels[r, c] in blobSizes
    ensures forall k :: k in blobSizes ==> blobSizes[k] == |LabelledCells(mask, labels, k)| >= 1
    ensures Sum(blobSizes) == |ForegroundCells(mask)|
  {
    ForegroundCellsMembers(mask);
    assert done == ForegroundCells(mask);
    forall k | k in blobSizes ensures blobSizes[k] == |LabelledCells(mask, labels, k)| {
      CellsOfLabel(mask, labels, done, labelOf, cellsOf[k], k);
    }
    forall r, c | 0 <= r < mask.Length0 && 0 <= c < mask.Length1 && mask[r, c] ensures labels[r, c] in blobSizes {
      assert (r, c) in done;
    }
  }

  /**
   * Lines 66-87: every foreground cell's provisional label is replaced by the
   * least element of its equivalence set (no transitive closure), and the
   * cells of each resulting label are counted in `blobSizes`. Background
   * cells keep their 0.
   */
  method Canonicalise(mask: array2<bool>, labels: array2<int>, labelMap: map<int, set<int>>)
    returns (blobSizes: map<int, int>)
    requires labels.Length0 == mask.Length0 && labels.Length1 == mask.Length1
    requires forall r, c :: 0 <= r < mask.Length0 && 0 <= c < mask.Length1 && mask[r, c] ==>
               labels[r, c] in labelMap && labelMap[labels[r, c]] != {}
    modifies labels
    ensures forall r, c :: 0 <= r < mask.Length0 && 0 <= c < mask.Length1 ==>
              Rewritten(labelMap, mask[r, c], old(labels[r, c]), labels[r, c])
    ensures forall r, c :: 0 <= r < mask.Length0 && 0 <= c < mask.Length1 && mask[r, c] ==> labels[r, c] in blobSizes
    ensures forall k :: k in blobSizes ==> blobSizes[k] == |LabelledCells(mask, labels, k)| >= 1
    ensures Sum(blobSizes) == |ForegroundCells(mask)|
  {
    var rows := mask.Length0;
    blobSizes := map[];
    ghost var foreground := ForegroundCells(mask);
    ForegroundCellsMembers(mask);
    ghost var done: set<(int, int)> := {};
    ghost var labelOf: map<(int, int), int> := map[];
    ghost var cellsOf: map<int, set<(int, int)>> := map[];
    var row := 0;
    while row < rows
      invariant 0 <= row <= rows
      invariant forall r, c :: 0 <= r < rows && 0 <= c < mask.Length1 ==>
                  Rewritten(labelMap, r < row && mask[r, c], old(labels[r, c]), labels[r, c])
      invariant Counted(foreground, mask.Length1, blobSizes, done, labelOf, cellsOf, row, 0)
      invariant Relabelled(labels, done, labelOf)
    {
      label Visit:
      blobSizes, done, labelOf, cellsOf := CanonicaliseRow(mask, labels, labelMap, row, blobSizes, foreground,
                                                           done, labelOf, cellsOf);
      forall r, c | 0 <= r < rows && 0 <= c < mask.Length1
        ensures Rewritten(labelMap, r < row + 1 && mask[r, c], old(labels[r, c]), labels[r, c])
      {
        assert Rewritten(labelMap, r == row && mask[r, c], old@Visit(labels[r, c]), labels[r, c]);
      }
      row := row + 1;
    }
    CountsComplete(mask, labels, blobSizes, done, labelOf, cellsOf);
  }
}
