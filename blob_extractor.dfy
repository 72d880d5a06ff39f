/**
 * The extraction half of `BlobPlayerExtractor::extract_player_from_frame`:
 * every blob of at least `MIN_BLOB_SIZE` pixels, visited in ascending label
 * order, is framed by the tight bounding box of its label found by a full
 * scan of the label grid, padded by `MARGIN`, and cut out of the mask frame
 * and the original frame as a new player of the frame.
 */
module BlobExtractor {
  import opened Shapes
  import opened IntSets
  import opened BlobLabeller

  /** Blobs smaller than this are noise or the ball. */
  const MIN_BLOB_SIZE := 800
  /** Padding, in pixels, between a blob's bounding box and its player's rectangle. */
  const MARGIN := 20

  /** Inclusive bounds of the cells of one label. */
  datatype Box = Box(minRow: int, minCol: int, maxRow: int, maxCol: int)

  /** The rows of the cells labelled `k` among those before (row, col) in raster order. */
  ghost function RowsUpTo(labels: array2<int>, k: int, row: int, col: int): set<int>
    reads labels
  {
    set r, c | 0 <= r < labels.Length0 && 0 <= c < labels.Length1 && Before(r, c, row, col) && labels[r, c] == k :: r
  }

  /** The columns of the cells labelled `k` among those before (row, col) in raster order. */
  ghost function ColsUpTo(labels: array2<int>, k: int, row: int, col: int): set<int>
    reads labels
  {
    set r, c | 0 <= r < labels.Length0 && 0 <= c < labels.Length1 && Before(r, c, row, col) && labels[r, c] == k :: c
  }

  /** The rows holding a cell labelled `k`. */
  ghost function RowsOf(labels: array2<int>, k: int): set<int>
    reads labels
  {
    RowsUpTo(labels, k, labels.Length0, 0)
  }

  /** The columns holding a cell labelled `k`. */
  ghost function ColsOf(labels: array2<int>, k: int): set<int>
    reads labels
  {
    ColsUpTo(labels, k, labels.Length0, 0)
  }

  /** Label `k` is carried by at least one cell. */
  ghost predicate Occurs(labels: array2<int>, k: int)
    reads labels
  {
    exists r, c :: 0 <= r < labels.Length0 && 0 <= c < labels.Length1 && labels[r, c] == k
  }

  /** A label occurs exactly when it has rows, and exactly when it has columns. */
  lemma OccursHasRowsAndCols(labels: array2<int>, k: int)
    ensures Occurs(labels, k) <==> RowsOf(labels, k) != {}
    ensures Occurs(labels, k) <==> ColsOf(labels, k) != {}
  {
    if Occurs(labels, k) {
      var r, c :| 0 <= r < labels.Length0 && 0 <= c < labels.Length1 && labels[r, c] == k;
      assert Before(r, c, labels.Length0, 0);
      assert r in RowsOf(labels, k) && c in ColsOf(labels, k);
    }
    if RowsOf(labels, k) != {} {
      var x :| x in RowsOf(labels, k);
      var r, c :| 0 <= r < labels.Length0 && 0 <= c < labels.Length1 && Before(r, c, labels.Length0, 0)
                  && labels[r, c] == k && x == r;
    }
    if ColsOf(labels, k) != {} {
      var x :| x in ColsOf(labels, k);
      var r, c :| 0 <= r < labels.Length0 && 0 <= c < labels.Length1 && Before(r, c, labels.Length0, 0)
                  && labels[r, c] == k && x == c;
    }
  }

  /** The row and column of every cell labelled `k` are among the label's rows and columns. */
  lemma CellsInRowsCols(labels: array2<int>, k: int)
    ensures forall r, c :: 0 <= r < labels.Length0 && 0 <= c < labels.Length1 && labels[r, c] == k ==>
              r in RowsOf(labels, k) && c in ColsOf(labels, k)
  {
    forall r, c | 0 <= r < labels.Length0 && 0 <= c < labels.Length1 && labels[r, c] == k
      ensures r in RowsOf(labels, k) && c in ColsOf(labels, k)
    {
      assert Before(r, c, labels.Length0, 0);
    }
  }

  /** The tight bounding box of label `k`: its least and greatest row and column. */
  ghost function TightBox(labels: array2<int>, k: int): (b: Box)
    reads labels
    requires Occurs(labels, k)
    ensures forall r, c :: 0 <= r < labels.Length0 && 0 <= c < labels.Length1 && labels[r, c] == k ==>
              b.minRow <= r <= b.maxRow && b.minCol <= c <= b.maxCol
  {
    OccursHasRowsAndCols(labels, k);
    var b := Box(SetMin(RowsOf(labels, k)), SetMin(ColsOf(labels, k)), SetMax(RowsOf(labels, k)), SetMax(ColsOf(labels, k)));
    CellsInRowsCols(labels, k);
    b
  }

  /** Every side of the tight box is touched by a cell of the label. */
  lemma TightBoxAttained(labels: array2<int>, k: int)
    requires Occurs(labels, k)
    ensures exists r, c :: 0 <= r < labels.Length0 && 0 <= c < labels.Length1 && labels[r, c] == k && r == TightBox(labels, k).minRow
    ensures exists r, c :: 0 <= r < labels.Length0 && 0 <= c < labels.Length1 && labels[r, c] == k && r == TightBox(labels, k).maxRow
    ensures exists r, c :: 0 <= r < labels.Length0 && 0 <= c < labels.Length1 && labels[r, c] == k && c == TightBox(labels, k).minCol
    ensures exists r, c :: 0 <= r < labels.Length0 && 0 <= c < labels.Length1 && labels[r, c] == k && c == TightBox(labels, k).maxCol
  {
    OccursHasRowsAndCols(labels, k);
    var b := TightBox(labels, k);
    assert b.minRow in RowsOf(labels, k) && b.maxRow in RowsOf(labels, k);
    assert b.minCol in ColsOf(labels, k) && b.maxCol in ColsOf(labels, k);
  }

  /** Visiting (row, col) adds its row and column when it carries `k`. */
  lemma RowsColsStep(labels: array2<int>, k: int, row: int, col: int)
    requires 0 <= row < labels.Length0 && 0 <= col < labels.Length1
    ensures RowsUpTo(labels, k, row, col + 1) == RowsUpTo(labels, k, row, col) + (if labels[row, col] == k then {row} else {})
    ensures ColsUpTo(labels, k, row, col + 1) == ColsUpTo(labels, k, row, col) + (if labels[row, col] == k then {col} else {})
  {
    var rowsBefore, rowsAfter := RowsUpTo(labels, k, row, col), RowsUpTo(labels, k, row, col + 1);
    forall x | x in rowsAfter ensures x in rowsBefore || (labels[row, col] == k && x == row) {
      var r, c :| 0 <= r < labels.Length0 && 0 <= c < labels.Length1 && Before(r, c, row, col + 1) && labels[r, c] == k && x == r;
      if !Before(r, c, row, col) {
        assert r == row && c == col;
      }
    }
    forall x | x in rowsBefore ensures x in rowsAfter {
      var r, c :| 0 <= r < labels.Length0 && 0 <= c < labels.Length1 && Before(r, c, row, col) && labels[r, c] == k && x == r;
      assert Before(r, c, row, col + 1);
    }
    if labels[row, col] == k {
      assert Before(row, col, row, col + 1);
    }
    var colsBefore, colsAfter := ColsUpTo(labels, k, row, col), ColsUpTo(labels, k, row, col + 1);
    forall x | x in colsAfter ensures x in colsBefore || (labels[row, col] == k && x == col) {
      var r, c :| 0 <= r < labels.Length0 && 0 <= c < labels.Length1 && Before(r, c, row, col + 1) && labels[r, c] == k && x == c;
      if !Before(r, c, row, col) {
        assert r == row && c == col;
      }
    }
    forall x | x in colsBefore ensures x in colsAfter {
      var r, c :| 0 <= r < labels.Length0 && 0 <= c < labels.Length1 && Before(r, c, row, col) && labels[r, c] == k && x == c;
      assert Before(r, c, row, col + 1);
    }
  }

  /** Before the scan starts no cell has been seen. */
  lemma NothingBeforeOrigin(labels: array2<int>, k: int)
    ensures RowsUpTo(labels, k, 0, 0) == {} && ColsUpTo(labels, k, 0, 0) == {}
  {
    forall r, c | 0 <= r < labels.Length0 && 0 <= c < labels.Length1 ensures !Before(r, c, 0, 0) {
    }
  }

  /** Past the last column of a row, the cells seen are those before the next row. */
  lemma RowsColsNextRow(labels: array2<int>, k: int, row: int)
    ensures RowsUpTo(labels, k, row, labels.Length1) == RowsUpTo(labels, k, row + 1, 0)
    ensures ColsUpTo(labels, k, row, labels.Length1) == ColsUpTo(labels, k, row + 1, 0)
  {
    forall r, c | 0 <= r < labels.Length0 && 0 <= c < labels.Length1
      ensures Before(r, c, row, labels.Length1) == Before(r, c, row + 1, 0)
    {
    }
  }

  /**
   * The running bounds of the box scan: the sentinels while no cell of the
   * label has been seen, otherwise the extremes of the rows and columns seen.
   */
  predicate RunningBox(rows: set<int>, cols: set<int>, b: Box)
  {
    && (rows == {} <==> cols == {})
    && (rows == {} ==> b == Box(INT_MAX, INT_MAX, INT_MIN, INT_MIN))
    && (rows != {} ==> IsMin(rows, b.minRow) && IsMax(rows, b.maxRow) && IsMin(cols, b.minCol) && IsMax(cols, b.maxCol))
  }

  /** Lines 101-112 for one cell of the label: each bound moves out to the cell when it lies beyond it. */
  function Widen(b: Box, row: int, col: int): (b': Box)
    ensures b'.minRow <= b.minRow && b'.minCol <= b.minCol && b'.maxRow >= b.maxRow && b'.maxCol >= b.maxCol
    ensures b'.minRow <= row <= b'.maxRow && b'.minCol <= col <= b'.maxCol
  {
    Box(if row < b.minRow then row else b.minRow,
        if col < b.minCol then col else b.minCol,
        if row > b.maxRow then row else b.maxRow,
        if col > b.maxCol then col else b.maxCol)
  }

  /** Widening the running bounds by a cell keeps them the extremes of what has been seen. */
  lemma WidenKeepsRunningBox(rows: set<int>, cols: set<int>, b: Box, row: int, col: int)
    requires RunningBox(rows, cols, b)
    requires INT_MIN < row < INT_MAX && INT_MIN < col < INT_MAX
    ensures RunningBox(rows + {row}, cols + {col}, Widen(b, row, col))
  {
  }

  /** Visiting cell (row, col) widens the running bounds exactly when it carries `k`. */
  lemma BoxStep(labels: array2<int>, k: int, row: int, col: int, b: Box)
    requires 0 <= row < labels.Length0 <= INT_MAX && 0 <= col < labels.Length1 <= INT_MAX
    requires RunningBox(RowsUpTo(labels, k, row, col), ColsUpTo(labels, k, row, col), b)
    ensures RunningBox(RowsUpTo(labels, k, row, col + 1), ColsUpTo(labels, k, row, col + 1),
                       if labels[row, col] == k then Widen(b, row, col) else b)
  {
    RowsColsStep(labels, k, row, col);
    if labels[row, col] == k {
      WidenKeepsRunningBox(RowsUpTo(labels, k, row, col), ColsUpTo(labels, k, row, col), b, row, col);
    }
  }

  /** Lines 99-113 for one row: the running bounds widened by the row's cells labelled `k`. */
  method ScanRowForBox(labels: array2<int>, k: int, row: int, b: Box) returns (b': Box)
    requires 0 <= row < labels.Length0 <= INT_MAX && labels.Length1 <= INT_MAX
    requires RunningBox(RowsUpTo(labels, k, row, 0), ColsUpTo(labels, k, row, 0), b)
    ensures RunningBox(RowsUpTo(labels, k, row + 1, 0), ColsUpTo(labels, k, row + 1, 0), b')
  {
    var minRow, minCol, maxRow, maxCol := b.minRow, b.minCol, b.maxRow, b.maxCol;
    var col := 0;
    while col < labels.Length1
      invariant 0 <= col <= labels.Length1
      invariant RunningBox(RowsUpTo(labels, k, row, col), ColsUpTo(labels, k, row, col), Box(minRow, minCol, maxRow, maxCol))
    {
      BoxStep(labels, k, row, col, Box(minRow, minCol, maxRow, maxCol));
      if labels[row, col] == k {
        if row < minRow {
          minRow := row;
        }
        if col < minCol {
          minCol := col;
        }
        if row > maxRow {
          maxRow := row;
        }
        if col > maxCol {
          maxCol := col;
        }
      }
      col := col + 1;
    }
    RowsColsNextRow(labels, k, row);
    b' := Box(minRow, minCol, maxRow, maxCol);
  }

  /** Once every cell has been seen, the running bounds are the tight box, or the sentinels for an absent label. */
  lemma RunningBoxComplete(labels: array2<int>, k: int, b: Box)
    requires RunningBox(RowsOf(labels, k), ColsOf(labels, k), b)
    ensures Occurs(labels, k) ==> b == TightBox(labels, k)
    ensures !Occurs(labels, k) ==> b == Box(INT_MAX, INT_MAX, INT_MIN, INT_MIN)
  {
    OccursHasRowsAndCols(labels, k);
    if Occurs(labels, k) {
      var t := TightBox(labels, k);
      assert IsMin(RowsOf(labels, k), t.minRow) && IsMax(RowsOf(labels, k), t.maxRow);
      assert IsMin(ColsOf(labels, k), t.minCol) && IsMax(ColsOf(labels, k), t.maxCol);
    }
  }

  /**
   * Lines 94-115: the bounds of label `k` found by scanning the whole grid,
   * starting from the largest and smallest `int`.
   */
  method BoundingBox(labels: array2<int>, k: int) returns (b: Box)
    requires labels.Length0 <= INT_MAX && labels.Length1 <= INT_MAX
    ensures Occurs(labels, k) ==> b == TightBox(labels, k)
    ensures !Occurs(labels, k) ==> b == Box(INT_MAX, INT_MAX, INT_MIN, INT_MIN)
  {
    b := Box(INT_MAX, INT_MAX, INT_MIN, INT_MIN);
    NothingBeforeOrigin(labels, k);
    var row := 0;
    while row < labels.Length0
      invariant 0 <= row <= labels.Length0
      invariant RunningBox(RowsUpTo(labels, k, row, 0), ColsUpTo(labels, k, row, 0), b)
    {
      b := ScanRowForBox(labels, k, row, b);
      row := row + 1;
    }
    RunningBoxComplete(labels, k, b);
  }

  /** Line 116: `cv::Rect(minCol - 20, minRow - 20, maxCol - minCol + 40, maxRow - minRow + 40)`. */
  function PaddedRect(b: Box): (r: Rect)
    ensures r.x == b.minCol - MARGIN && r.x + r.width == b.maxCol + MARGIN
    ensures r.y == b.minRow - MARGIN && r.y + r.height == b.maxRow + MARGIN
  {
    Rect(b.minCol - MARGIN, b.minRow - MARGIN, b.maxCol - b.minCol + 2 * MARGIN, b.maxRow - b.minRow + 2 * MARGIN)
  }

  /** Cell (row, col) lies in the rectangle, whose right and bottom edges are exclusive. */
  predicate Contains(rect: Rect, row: int, col: int)
  {
    rect.x <= col < rect.x + rect.width && rect.y <= row < rect.y + rect.height
  }

  /**
   * The padded rectangle holds exactly the cells from `MARGIN` before the box
   * to `MARGIN - 1` after it: the padding is one pixel narrower on the right
   * and at the bottom than on the left and at the top.
   */
  lemma PaddedRectCells(b: Box, row: int, col: int)
    ensures Contains(PaddedRect(b), row, col) <==>
              b.minRow - MARGIN <= row <= b.maxRow + MARGIN - 1 && b.minCol - MARGIN <= col <= b.maxCol + MARGIN - 1
  {
  }

  /**
   * Every cell of a blob lies at least `MARGIN` pixels inside the left and top
   * edges of its padded rectangle and `MARGIN - 1` inside the right and bottom
   * ones (the far edges are exclusive).
   */
  lemma PaddedRectEnclosesBlob(labels: array2<int>, k: int)
    requires Occurs(labels, k)
    ensures forall r, c :: 0 <= r < labels.Length0 && 0 <= c < labels.Length1 && labels[r, c] == k ==>
              var rect := PaddedRect(TightBox(labels, k));
              rect.x <= c - MARGIN && c + MARGIN <= rect.x + rect.width &&
              rect.y <= r - MARGIN && r + MARGIN <= rect.y + rect.height
  {
  }

  /**
   * The rectangle lies inside an image of `rows` by `cols` pixels: the
   * condition OpenCV places on a region of interest.
   */
  predicate Fits(rect: Rect, rows: int, cols: int)
  {
    && 0 <= rect.x && 0 <= rect.width && rect.x + rect.width <= cols
    && 0 <= rect.y && 0 <= rect.height && rect.y + rect.height <= rows
  }

  /**
   * A blob's padded rectangle lies inside the frame exactly when the blob
   * keeps `MARGIN` pixels from every edge of the frame: any blob nearer to an
   * edge yields a rectangle reaching outside the frame.
   */
  lemma PaddedRectFits(b: Box, rows: int, cols: int)
    requires b.minRow <= b.maxRow && b.minCol <= b.maxCol
    ensures Fits(PaddedRect(b), rows, cols) <==>
              MARGIN <= b.minCol && b.maxCol + MARGIN <= cols && MARGIN <= b.minRow && b.maxRow + MARGIN <= rows
  {
  }

  /** Lines 117-120: `player` was cut out of the frame at `rect`, and has no features yet. */
  ghost predicate CutOut(player: Player, rect: Rect, frameIndex: int)
    reads player
  {
    && player.maskImage == Crop(MaskFrame, rect)
    && player.pos == rect
    && player.originalImage == Crop(OriginalFrame, rect)
    && player.frameIndex == frameIndex
    && player.features == NoFeatures
  }

  /** Line 91 along the walk: the labels of `s`, in order, whose blob reaches `MIN_BLOB_SIZE` (a missing size reads as 0). */
  function Large(blobSizes: map<int, int>, s: seq<int>): (r: seq<int>)
    ensures |r| <= |s|
    ensures forall i :: 0 <= i < |r| ==> Lookup(blobSizes, r[i]) >= MIN_BLOB_SIZE
  {
    if s == [] then []
    else (if Lookup(blobSizes, s[0]) >= MIN_BLOB_SIZE then [s[0]] else []) + Large(blobSizes, s[1..])
  }

  /** `Large` keeps exactly the labels of `s` whose blob is large enough. */
  lemma {:induction false} LargeMembers(blobSizes: map<int, int>, s: seq<int>)
    ensures forall x :: x in Large(blobSizes, s) <==> x in s && Lookup(blobSizes, x) >= MIN_BLOB_SIZE
    decreases |s|
  {
    if s != [] {
      LargeMembers(blobSizes, s[1..]);
      assert s == [s[0]] + s[1..];
    }
  }

  /** Visiting one more label appends it when its blob is large enough. */
  lemma {:induction false} LargeAppend(blobSizes: map<int, int>, s: seq<int>, x: int)
    ensures Large(blobSizes, s + [x]) == Large(blobSizes, s) + (if Lookup(blobSizes, x) >= MIN_BLOB_SIZE then [x] else [])
    decreases |s|
  {
    if s == [] {
      assert [x][1..] == [];
    } else {
      assert (s + [x])[0] == s[0] && (s + [x])[1..] == s[1..] + [x];
      LargeAppend(blobSizes, s[1..], x);
    }
  }

  /** Keeping the large labels of an increasing sequence keeps it increasing. */
  lemma {:induction false} LargeIncreasing(blobSizes: map<int, int>, s: seq<int>)
    requires Increasing(s)
    ensures Increasing(Large(blobSizes, s))
    decreases |s|
  {
    if s != [] {
      var tail := s[1..];
      assert Increasing(tail);
      LargeIncreasing(blobSizes, tail);
      LargeMembers(blobSizes, tail);
      var rest := Large(blobSizes, tail);
      forall x | x in rest ensures s[0] < x {
        var j :| 0 <= j < |tail| && tail[j] == x;
        assert s[j + 1] == x;
      }
      var r := Large(blobSizes, s);
      if Lookup(blobSizes, s[0]) >= MIN_BLOB_SIZE {
        assert r == [s[0]] + rest;
        forall i, j | 0 <= i < j < |r| ensures r[i] < r[j] {
          assert r[j] == rest[j - 1] && rest[j - 1] in rest;
          if i > 0 {
            assert r[i] == rest[i - 1];
          }
        }
      } else {
        assert r == rest;
      }
    }
  }

  /** The keys of `s` whose blob reaches `MIN_BLOB_SIZE`. */
  ghost function LargeKeys(blobSizes: map<int, int>, s: set<int>): set<int>
  {
    set x | x in s && Lookup(blobSizes, x) >= MIN_BLOB_SIZE
  }

  /** Visiting a set in ascending order keeps one label per large key. */
  lemma {:induction false} LargeCount(blobSizes: map<int, int>, s: set<int>)
    ensures |Large(blobSizes, Ascending(s))| == |LargeKeys(blobSizes, s)|
    decreases |s|
  {
    if s != {} {
      var m := SetMin(s);
      var tail := Ascending(s - {m});
      assert Ascending(s) == [m] + tail;
      assert ([m] + tail)[0] == m && ([m] + tail)[1..] == tail;
      LargeCount(blobSizes, s - {m});
      assert m !in LargeKeys(blobSizes, s - {m});
      if Lookup(blobSizes, m) >= MIN_BLOB_SIZE {
        assert LargeKeys(blobSizes, s) == {m} + LargeKeys(blobSizes, s - {m});
      } else {
        assert LargeKeys(blobSizes, s) == LargeKeys(blobSizes, s - {m});
      }
    }
  }

  /**
   * The labels whose blob is large enough, each once, in the ascending order
   * the map is visited (lines 90-91).
   */
  function SelectedLabels(blobSizes: map<int, int>): (r: seq<int>)
    ensures forall x :: x in r <==> x in blobSizes && blobSizes[x] >= MIN_BLOB_SIZE
    ensures Increasing(r)
  {
    AscendingEnumerates(blobSizes.Keys);
    LargeIncreasing(blobSizes, Ascending(blobSizes.Keys));
    LargeMembers(blobSizes, Ascending(blobSizes.Keys));
    Large(blobSizes, Ascending(blobSizes.Keys))
  }

  /** There are as many selected labels as keys whose size reaches `MIN_BLOB_SIZE`. */
  lemma SelectedLabelsCount(blobSizes: map<int, int>)
    ensures |SelectedLabels(blobSizes)| == |KeysAtLeast(blobSizes, MIN_BLOB_SIZE)|
  {
    LargeCount(blobSizes, blobSizes.Keys);
    assert LargeKeys(blobSizes, blobSizes.Keys) == KeysAtLeast(blobSizes, MIN_BLOB_SIZE);
  }

  /** The rectangle of the player for label `k`. */
  ghost function PlayerRect(labels: array2<int>, k: int): Rect
    reads labels
    requires Occurs(labels, k)
  {
    PaddedRect(TightBox(labels, k))
  }

  /** `players` are the players cut out for the labels of `chosen`, one for one. */
  ghost predicate PlayersFor(labels: array2<int>, chosen: seq<int>, frameIndex: int, players: seq<Player>)
    reads labels, players
  {
    && |players| == |chosen|
    && forall i :: 0 <= i < |players| ==> Occurs(labels, chosen[i]) && CutOut(players[i], PlayerRect(labels, chosen[i]), frameIndex)
  }

  /** Cutting out the player of one more label extends the correspondence. */
  lemma PlayersForAppend(labels: array2<int>, chosen: seq<int>, frameIndex: int, players: seq<Player>, k: int, p: Player)
    requires PlayersFor(labels, chosen, frameIndex, players)
    requires Occurs(labels, k) && CutOut(p, PlayerRect(labels, k), frameIndex)
    ensures PlayersFor(labels, chosen + [k], frameIndex, players + [p])
  {
  }

  /** No player appears twice. */
  predicate Distinct(players: seq<Player>)
  {
    forall i, j :: 0 <= i < j < |players| ==> players[i] != players[j]
  }

  /** Appending a player not yet listed keeps the players distinct. */
  lemma DistinctAppend(players: seq<Player>, p: Player)
    requires Distinct(players) && p !in players
    ensures Distinct(players + [p])
  {
  }

  /** Taking the least remaining label moves it from the unvisited to the visited ones. */
  lemma VisitNext(visited: seq<int>, remaining: set<int>, all: seq<int>)
    requires remaining != {}
    requires visited + Ascending(remaining) == all
    ensures (visited + [SetMin(remaining)]) + Ascending(remaining - {SetMin(remaining)}) == all
  {
    var k := SetMin(remaining);
    assert Ascending(remaining) == [k] + Ascending(remaining - {k});
    assert visited + ([k] + Ascending(remaining - {k})) == (visited + [k]) + Ascending(remaining - {k});
  }

  /** Lines 92-120 for one selected label: a new player framed by the padded tight box of the label. */
  method CutOutPlayer(labels: array2<int>, k: int, frameIndex: int) returns (player: Player)
    requires labels.Length0 <= INT_MAX && labels.Length1 <= INT_MAX
    requires Occurs(labels, k)
    ensures fresh(player)
    ensures CutOut(player, PlayerRect(labels, k), frameIndex)
  {
    var b := BoundingBox(labels, k);
    var rect := PaddedRect(b);
    player := new Player(Crop(MaskFrame, rect), rect, Crop(OriginalFrame, rect), frameIndex);
  }

  /** Lines 91-122 for one label of the map: a player is added exactly when the blob is large enough. */
  method VisitLabel(labels: array2<int>, blobSizes: map<int, int>, frameIndex: int, k: int,
                    players: seq<Player>, ghost chosen: seq<int>)
    returns (players': seq<Player>, ghost chosen': seq<int>)
    requires labels.Length0 <= INT_MAX && labels.Length1 <= INT_MAX
    requires k in blobSizes && Occurs(labels, k)
    requires PlayersFor(labels, chosen, frameIndex, players) && Distinct(players)
    ensures chosen' == chosen + if blobSizes[k] >= MIN_BLOB_SIZE then [k] else []
    ensures PlayersFor(labels, chosen', frameIndex, players') && Distinct(players')
  {
    players', chosen' := players, chosen;
    if blobSizes[k] >= MIN_BLOB_SIZE {
      var player := CutOutPlayer(labels, k, frameIndex);
      PlayersForAppend(labels, chosen, frameIndex, players, k, player);
      DistinctAppend(players, player);
      players', chosen' := players + [player], chosen + [k];
    }
  }

  /**
   * Lines 89-123: the map is walked in ascending label order and each blob of
   * at least `MIN_BLOB_SIZE` pixels becomes a new player framed by the padded
   * tight box of its label, so the players follow the selected labels one
   * for one.
   */
  method ExtractPlayers(labels: array2<int>, blobSizes: map<int, int>, frameIndex: int) returns (players: seq<Player>)
    requires labels.Length0 <= INT_MAX && labels.Length1 <= INT_MAX
    requires forall k :: k in blobSizes ==> Occurs(labels, k)
    ensures PlayersFor(labels, SelectedLabels(blobSizes), frameIndex, players)
    ensures Distinct(players)
  {
    players := [];
    var remaining := blobSizes.Keys;
    ghost var visited: seq<int> := [];
    ghost var chosen: seq<int> := [];
    while remaining != {}
      invariant Walk(blobSizes, visited, remaining, chosen)
      invariant PlayersFor(labels, chosen, frameIndex, players)
      invariant Distinct(players)
      decreases |remaining|
    {
      var k := SetMin(remaining);
      WalkStep(blobSizes, visited, remaining, chosen);
      players, chosen := VisitLabel(labels, blobSizes, frameIndex, k, players, chosen);
      visited := visited + [k];
      remaining := remaining - {k};
    }
    WalkDone(blobSizes, visited, chosen);
  }

  /**
   * The state of the walk over the map: `visited` are the labels already
   * visited, in ascending order, followed by those `remaining`, and `chosen`
   * are the visited labels whose blob is large enough.
   */
  ghost predicate Walk(blobSizes: map<int, int>, visited: seq<int>, remaining: set<int>, chosen: seq<int>)
  {
    && remaining <= blobSizes.Keys
    && visited + Ascending(remaining) == Ascending(blobSizes.Keys)
    && chosen == Large(blobSizes, visited)
  }

  /** Visiting the least remaining label advances the walk. */
  lemma WalkStep(blobSizes: map<int, int>, visited: seq<int>, remaining: set<int>, chosen: seq<int>)
    requires Walk(blobSizes, visited, remaining, chosen) && remaining != {}
    ensures SetMin(remaining) in blobSizes
    ensures Walk(blobSizes, visited + [SetMin(remaining)], remaining - {SetMin(remaining)},
                 chosen + if blobSizes[SetMin(remaining)] >= MIN_BLOB_SIZE then [SetMin(remaining)] else [])
  {
    var k := SetMin(remaining);
    VisitNext(visited, remaining, Ascending(blobSizes.Keys));
    LargeAppend(blobSizes, visited, k);
  }

  /** When nothing remains, the chosen labels are the selected ones. */
  lemma WalkDone(blobSizes: map<int, int>, visited: seq<int>, chosen: seq<int>)
    requires Walk(blobSizes, visited, {}, chosen)
    ensures chosen == SelectedLabels(blobSizes)
  {
    assert visited == Ascending(blobSizes.Keys);
  }

  /** A label carried by some foreground cell occurs in the grid. */
  lemma LabelledOccurs(mask: array2<bool>, labels: array2<int>, k: int)
    requires labels.Length0 == mask.Length0 && labels.Length1 == mask.Length1
    requires |LabelledCells(mask, labels, k)| >= 1
    ensures Occurs(labels, k)
  {
    var p :| p in LabelledCells(mask, labels, k);
    assert labels[p.0, p.1] == k;
  }

  /** Every foreground cell's label is a blob and every background cell is 0. */
  ghost predicate LabelsAreBlobs(mask: array2<bool>, labels: array2<int>, blobSizes: map<int, int>)
    reads mask, labels
    requires labels.Length0 == mask.Length0 && labels.Length1 == mask.Length1
  {
    forall r, c :: 0 <= r < mask.Length0 && 0 <= c < mask.Length1 ==>
      if mask[r, c] then labels[r, c] in blobSizes else labels[r, c] == 0
  }

  /** Each blob's size is the number of foreground cells carrying its label, at least one. */
  ghost predicate SizesCounted(mask: array2<bool>, labels: array2<int>, blobSizes: map<int, int>)
    reads mask, labels
    requires labels.Length0 == mask.Length0 && labels.Length1 == mask.Length1
  {
    forall k :: k in blobSizes ==> blobSizes[k] == |LabelledCells(mask, labels, k)| >= 1
  }

  /**
   * Every foreground cell carries the least label of the equivalence set of
   * the provisional label the labelling pass gave it; every background cell
   * carries 0.
   */
  ghost predicate CanonicalLabels(mask: array2<bool>, labels: array2<int>)
    reads mask, labels
    requires labels.Length0 == mask.Length0 && labels.Length1 == mask.Length1
  {
    var pass := Labelling(mask);
    forall r, c :: 0 <= r < mask.Length0 && 0 <= c < mask.Length1 ==>
      labels[r, c] == if mask[r, c] then Canonical(pass.labelMap, At(pass.grid, r, c)) else 0
  }

  /** Every foreground cell's final label is at least 1 and at most its provisional label. */
  ghost predicate BelowProvisional(mask: array2<bool>, labels: array2<int>)
    reads mask, labels
    requires labels.Length0 == mask.Length0 && labels.Length1 == mask.Length1
  {
    forall r, c :: 0 <= r < mask.Length0 && 0 <= c < mask.Length1 && mask[r, c] ==>
      1 <= labels[r, c] <= At(Labelling(mask).grid, r, c)
  }

  /**
   * Lines 18-87: a zeroed label grid of the frame's size (line 20) is labelled
   * by the raster pass and then canonicalised, and the blob sizes counted.
   */
  method LabelFrame(mask: array2<bool>) returns (labels: array2<int>, blobSizes: map<int, int>)
    requires mask.Length0 * mask.Length1 < INT_MAX
    ensures fresh(labels) && labels.Length0 == mask.Length0 && labels.Length1 == mask.Length1
    ensures CanonicalLabels(mask, labels) && BelowProvisional(mask, labels)
    ensures LabelsAreBlobs(mask, labels, blobSizes) && SizesCounted(mask, labels, blobSizes)
    ensures forall k :: k in blobSizes ==> Occurs(labels, k)
    ensures Sum(blobSizes) == |ForegroundCells(mask)|
  {
    labels := new int[mask.Length0, mask.Length1]((r, c) => 0);
    var labelMap, currentLabel := LabelPass(mask, labels);
    PassComplete(mask, labels, labelMap, currentLabel);
    ghost var provisional := Labelling(mask).grid;
    blobSizes := Canonicalise(mask, labels, labelMap);
    forall r, c | 0 <= r < mask.Length0 && 0 <= c < mask.Length1
      ensures labels[r, c] == if mask[r, c] then Canonical(labelMap, At(provisional, r, c)) else 0
      ensures mask[r, c] ==> 1 <= labels[r, c] <= At(provisional, r, c)
    {
      if mask[r, c] {
        var p := At(provisional, r, c);
        assert p in labelMap && p in labelMap[p];
        assert labels[r, c] in labelMap[p];
      }
    }
    assert LabelsAreBlobs(mask, labels, blobSizes) && SizesCounted(mask, labels, blobSizes);
    forall k | k in blobSizes ensures Occurs(labels, k) {
      LabelledOccurs(mask, labels, k);
    }
  }

  /**
   * Lines 11-126: the players of one frame. The frame's label grid and blob
   * sizes are returned alongside so that the result can be stated against
   * them.
   */
  method ExtractPlayerFromFrame(mask: array2<bool>, frameIndex: int)
    returns (players: seq<Player>, ghost labels: array2<int>, ghost blobSizes: map<int, int>)
    requires mask.Length0 <= INT_MAX && mask.Length1 <= INT_MAX
    requires mask.Length0 * mask.Length1 < INT_MAX
    ensures fresh(labels) && labels.Length0 == mask.Length0 && labels.Length1 == mask.Length1
    ensures CanonicalLabels(mask, labels)
    ensures LabelsAreBlobs(mask, labels, blobSizes)
    ensures forall k :: k in blobSizes ==> blobSizes[k] >= 1
    ensures Sum(blobSizes) == |ForegroundCells(mask)|
    ensures forall k :: k in blobSizes ==> Occurs(labels, k)
    ensures PlayersFor(labels, SelectedLabels(blobSizes), frameIndex, players)
    ensures Distinct(players)
    ensures MIN_BLOB_SIZE * |players| <= |ForegroundCells(mask)|
    ensures ForegroundCells(mask) == {} ==> players == []
  {
    var grid, sizes := LabelFrame(mask);
    labels, blobSizes := grid, sizes;
    SelectionBound(sizes);
    if ForegroundCells(mask) == {} {
      NoForegroundNoSelection(sizes);
    }
    players := ExtractPlayers(grid, sizes, frameIndex);
  }

  /** At most one blob in `MIN_BLOB_SIZE` pixels is selected. */
  lemma SelectionBound(blobSizes: map<int, int>)
    requires forall k :: k in blobSizes ==> blobSizes[k] >= 0
    ensures MIN_BLOB_SIZE * |SelectedLabels(blobSizes)| <= Sum(blobSizes)
  {
    SelectedLabelsCount(blobSizes);
    SumBoundsKeysAtLeast(blobSizes, MIN_BLOB_SIZE);
  }

  /** With no foreground pixel there is no blob, so nothing is selected. */
  lemma NoForegroundNoSelection(blobSizes: map<int, int>)
    requires forall k :: k in blobSizes ==> blobSizes[k] >= 1
    requires Sum(blobSizes) == 0
    ensures SelectedLabels(blobSizes) == []
  {
    if blobSizes != map[] {
      var k := SetMin(blobSizes.Keys);
      SumRemove(blobSizes, k);
      SumNonnegative(blobSizes - {k});
    }
  }

  /** A map of nonnegative values has a nonnegative sum. */
  lemma {:induction false} SumNonnegative(m: map<int, int>)
    requires forall k :: k in m ==> m[k] >= 0
    ensures Sum(m) >= 0
    decreases |m|
  {
    if m != map[] {
      var k := SetMin(m.Keys);
      assert (m - {k}).Keys == m.Keys - {k};
      SumNonnegative(m - {k});
    }
  }
}
