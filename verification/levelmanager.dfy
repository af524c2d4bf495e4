/** Managers/LevelManager.cs: the level index, loading a level's layout into
    the tilemap, and building the search grid from it. A layout is the list
    of integer rows of a LevelData; row `row`, column `col` is painted at cell
    (startX + col, startY - row). `tilemap.WorldToCell` is the identity on the
    integer cells used here. Failures the source would raise as exceptions (a
    null level list, an index outside it) are `None`. */
module LevelManagement {
  import opened Geometry
  import opened Options
  import opened GridOracle
  import Records

  type Layout = seq<seq<int>>

  /** The four tile assets the manager paints with. */
  datatype Palette = Palette(default: TileId, obstacle: TileId, start: TileId, end: TileId)

  datatype Manager = Manager(levels: Option<seq<Layout>>, currentLevelIndex: int, startX: int, startY: int,
                             tilemap: Tilemap, palette: Palette,
                             currentStartPosition: Pos, currentEndPosition: Pos, isLevelLoaded: bool)

  /** The part of the manager that painting a layout changes. */
  datatype Canvas = Canvas(tilemap: Tilemap, start: Pos, end: Pos)

  /** The cell layout entry (row, col) is painted at, for a layout whose
      top-left entry goes to (x0, y0). */
  function Place(x0: int, y0: int, row: int, col: int): Pos
  {
    Pos(x0 + col, y0 - row)
  }

  /** The tile SetTileAtPosition paints for a code; codes outside the enum
      get the default tile. */
  function Paint(p: Palette, code: int): (t: TileId)
    ensures Records.TileOfCode(code) == Some(Records.Obstacle) <==> code == 1
    ensures code == 1 ==> t == p.obstacle
    ensures code == 2 ==> t == p.start
    ensures code == 3 ==> t == p.end
    ensures code != 1 && code != 2 && code != 3 ==> t == p.default
  {
    match Records.TileOfCode(code)
    case Some(Empty) => p.default
    case Some(Obstacle) => p.obstacle
    case Some(Start) => p.start
    case Some(End) => p.end
    case None => p.default
  }

  /** The smallest bounds covering `b` and the cell `p`. */
  function Cover(b: Bounds, p: Pos): (c: Bounds)
    ensures c.Contains(p)
    ensures forall q :: b.Contains(q) ==> c.Contains(q)
  {
    if b.xMin >= b.xMax || b.yMin >= b.yMax then Bounds(p.x, p.y, p.x + 1, p.y + 1)
    else Bounds(if p.x < b.xMin then p.x else b.xMin, if p.y < b.yMin then p.y else b.yMin,
                if p.x >= b.xMax then p.x + 1 else b.xMax, if p.y >= b.yMax then p.y + 1 else b.yMax)
  }

  /** SetTileAtPosition: the cell gets the code's tile and is the only cell
      added, the bounds grow to cover it without dropping a cell they
      covered, and it becomes the start (end) when the code is Start, 2
      (End, 3). */
  function SetTileAtPosition(cv: Canvas, pal: Palette, p: Pos, code: int): (r: Canvas)
    ensures p in r.tilemap.tiles && r.tilemap.tiles[p] == Paint(pal, code)
    ensures r.tilemap.tiles.Keys == cv.tilemap.tiles.Keys + {p}
    ensures r.tilemap.cellBounds.Contains(p)
    ensures forall q :: cv.tilemap.cellBounds.Contains(q) ==> r.tilemap.cellBounds.Contains(q)
    ensures r.start == (if code == 2 then p else cv.start)
    ensures r.end == (if code == 3 then p else cv.end)
  {
    Canvas(Tilemap(cv.tilemap.tiles[p := Paint(pal, code)], Cover(cv.tilemap.cellBounds, p)),
           if code == Records.TileCode(Records.Start) then p else cv.start,
           if code == Records.TileCode(Records.End) then p else cv.end)
  }

  /** SetTileAtPosition touches no cell but its own. */
  lemma SetTileKeepsOthers(cv: Canvas, pal: Palette, p: Pos, code: int, q: Pos)
    requires q != p
    ensures var r := SetTileAtPosition(cv, pal, p, code);
            (q in r.tilemap.tiles <==> q in cv.tilemap.tiles)
            && (q in cv.tilemap.tiles ==> r.tilemap.tiles[q] == cv.tilemap.tiles[q])
  {
  }

  /** `code` does not occur in columns `from..n-1` of `cells`. */
  predicate AbsentFrom(cells: seq<int>, code: int, from: int, n: int)
    requires n <= |cells|
  {
    forall c :: from <= c < n && c >= 0 ==> cells[c] != code
  }

  /** `cells[col]` is the last occurrence of `code` among the first `n`. */
  predicate LastInRow(cells: seq<int>, code: int, col: int, n: int)
    requires n <= |cells|
  {
    0 <= col < n && cells[col] == code && AbsentFrom(cells, code, col + 1, n)
  }

  /** The inner loop of SetupLevelGrid: the first `n` entries of row `row`. */
  function PaintCols(cv: Canvas, pal: Palette, x0: int, y0: int, row: int, cells: seq<int>, n: nat): Canvas
    requires n <= |cells|
  {
    if n == 0 then cv
    else SetTileAtPosition(PaintCols(cv, pal, x0, y0, row, cells, n - 1), pal, Place(x0, y0, row, n - 1), cells[n - 1])
  }

  /** Painting a row puts each entry's tile at its place. */
  lemma {:induction false} PaintColsTiles(cv: Canvas, pal: Palette, x0: int, y0: int, row: int, cells: seq<int>, n: nat)
    requires n <= |cells|
    ensures var r := PaintCols(cv, pal, x0, y0, row, cells, n);
            forall c :: 0 <= c < n ==>
              Place(x0, y0, row, c) in r.tilemap.tiles && r.tilemap.tiles[Place(x0, y0, row, c)] == Paint(pal, cells[c])
  {
    if n > 0 {
      PaintColsTiles(cv, pal, x0, y0, row, cells, n - 1);
    }
  }

  /** Painting a row keeps the old bounds and covers every painted cell. */
  lemma {:induction false} PaintColsBounds(cv: Canvas, pal: Palette, x0: int, y0: int, row: int, cells: seq<int>, n: nat)
    requires n <= |cells|
    ensures var r := PaintCols(cv, pal, x0, y0, row, cells, n);
            && (forall c :: 0 <= c < n ==> r.tilemap.cellBounds.Contains(Place(x0, y0, row, c)))
            && (forall q :: cv.tilemap.cellBounds.Contains(q) ==> r.tilemap.cellBounds.Contains(q))
  {
    if n > 0 {
      PaintColsBounds(cv, pal, x0, y0, row, cells, n - 1);
    }
  }

  /** Painting a row leaves every cell outside its span as it was. */
  lemma {:induction false} PaintColsFrame(cv: Canvas, pal: Palette, x0: int, y0: int, row: int, cells: seq<int>, n: nat)
    requires n <= |cells|
    ensures var r := PaintCols(cv, pal, x0, y0, row, cells, n);
            forall p: Pos :: p.y != y0 - row || !(x0 <= p.x < x0 + n) ==>
              (p in r.tilemap.tiles <==> p in cv.tilemap.tiles)
              && (p in cv.tilemap.tiles ==> r.tilemap.tiles[p] == cv.tilemap.tiles[p])
  {
    if n > 0 {
      PaintColsFrame(cv, pal, x0, y0, row, cells, n - 1);
    }
  }

  /** Painting a row records its last Start (End) entry as the start (end),
      and keeps the previous one when the row has none. */
  lemma {:induction false} PaintColsMarks(cv: Canvas, pal: Palette, x0: int, y0: int, row: int, cells: seq<int>, n: nat)
    requires n <= |cells|
    ensures var r := PaintCols(cv, pal, x0, y0, row, cells, n);
            && (forall c :: LastInRow(cells, 2, c, n) ==> r.start == Place(x0, y0, row, c))
            && (AbsentFrom(cells, 2, 0, n) ==> r.start == cv.start)
            && (forall c :: LastInRow(cells, 3, c, n) ==> r.end == Place(x0, y0, row, c))
            && (AbsentFrom(cells, 3, 0, n) ==> r.end == cv.end)
  {
    if n > 0 {
      PaintColsMarks(cv, pal, x0, y0, row, cells, n - 1);
      forall c | LastInRow(cells, 2, c, n) && c < n - 1
        ensures LastInRow(cells, 2, c, n - 1)
      {
        assert cells[n - 1] != 2;
      }
      forall c | LastInRow(cells, 3, c, n) && c < n - 1
        ensures LastInRow(cells, 3, c, n - 1)
      {
        assert cells[n - 1] != 3;
      }
    }
  }

  /** `code` occurs nowhere in the rows `from..k-1` of the layout. */
  predicate AbsentRows(layout: Layout, code: int, from: int, k: int)
    requires k <= |layout|
  {
    forall row :: from <= row < k && row >= 0 ==> AbsentFrom(layout[row], code, 0, |layout[row]|)
  }

  /** Entry (row, col) is the last occurrence of `code` in row-major order
      among the first `k` rows. */
  predicate LastInLayout(layout: Layout, code: int, row: int, col: int, k: int)
    requires k <= |layout|
  {
    0 <= row < k && LastInRow(layout[row], code, col, |layout[row]|) && AbsentRows(layout, code, row + 1, k)
  }

  /** The cell `p` is painted by one of the first `k` rows. */
  predicate Covered(x0: int, y0: int, layout: Layout, k: int, p: Pos)
    requires k <= |layout|
  {
    var row := y0 - p.y;
    0 <= row < k && x0 <= p.x < x0 + |layout[row]|
  }

  /** The outer loop of SetupLevelGrid: the first `k` rows. */
  function PaintRows(cv: Canvas, pal: Palette, x0: int, y0: int, layout: Layout, k: nat): Canvas
    requires k <= |layout|
  {
    if k == 0 then cv
    else PaintCols(PaintRows(cv, pal, x0, y0, layout, k - 1), pal, x0, y0, k - 1, layout[k - 1], |layout[k - 1]|)
  }

  /** Painting the layout puts every entry's tile at its place: a later row
      never repaints an earlier row's cells, since rows go to distinct y. */
  lemma {:induction false} PaintRowsTiles(cv: Canvas, pal: Palette, x0: int, y0: int, layout: Layout, k: nat)
    requires k <= |layout|
    ensures var r := PaintRows(cv, pal, x0, y0, layout, k);
            forall row, c :: 0 <= row < k && 0 <= c < |layout[row]| ==>
              Place(x0, y0, row, c) in r.tilemap.tiles && r.tilemap.tiles[Place(x0, y0, row, c)] == Paint(pal, layout[row][c])
  {
    if k > 0 {
      PaintRowsTiles(cv, pal, x0, y0, layout, k - 1);
      PaintRowTiles(PaintRows(cv, pal, x0, y0, layout, k - 1), pal, x0, y0, layout, k);
    }
  }

  /** Painting row `k - 1` over a canvas that holds the tiles of the rows
      above it gives a canvas that holds the tiles of all `k` rows. */
  lemma PaintRowTiles(before: Canvas, pal: Palette, x0: int, y0: int, layout: Layout, k: nat)
    requires 0 < k <= |layout|
    requires forall row, c :: 0 <= row < k - 1 && 0 <= c < |layout[row]| ==>
               Place(x0, y0, row, c) in before.tilemap.tiles
               && before.tilemap.tiles[Place(x0, y0, row, c)] == Paint(pal, layout[row][c])
    ensures var r := PaintCols(before, pal, x0, y0, k - 1, layout[k - 1], |layout[k - 1]|);
            forall row, c :: 0 <= row < k && 0 <= c < |layout[row]| ==>
              Place(x0, y0, row, c) in r.tilemap.tiles && r.tilemap.tiles[Place(x0, y0, row, c)] == Paint(pal, layout[row][c])
  {
    var cells := layout[k - 1];
    var r := PaintCols(before, pal, x0, y0, k - 1, cells, |cells|);
    PaintColsTiles(before, pal, x0, y0, k - 1, cells, |cells|);
    forall row, c | 0 <= row < k - 1 && 0 <= c < |layout[row]|
      ensures Place(x0, y0, row, c) in r.tilemap.tiles && r.tilemap.tiles[Place(x0, y0, row, c)] == Paint(pal, layout[row][c])
    {
      PaintColsKeeps(before, pal, x0, y0, k - 1, cells, |cells|, Place(x0, y0, row, c));
    }
  }

  /** A cell off row `row` keeps its tile while the row is painted. */
  lemma PaintColsKeeps(cv: Canvas, pal: Palette, x0: int, y0: int, row: int, cells: seq<int>, n: nat, p: Pos)
    requires n <= |cells| && p.y != y0 - row
    ensures var r := PaintCols(cv, pal, x0, y0, row, cells, n);
            (p in r.tilemap.tiles <==> p in cv.tilemap.tiles)
            && (p in cv.tilemap.tiles ==> r.tilemap.tiles[p] == cv.tilemap.tiles[p])
  {
    PaintColsFrame(cv, pal, x0, y0, row, cells, n);
  }

  /** Painting the layout keeps the old bounds and covers every entry. */
  lemma {:induction false} PaintRowsBounds(cv: Canvas, pal: Palette, x0: int, y0: int, layout: Layout, k: nat)
    requires k <= |layout|
    ensures var r := PaintRows(cv, pal, x0, y0, layout, k);
            && (forall row, c :: 0 <= row < k && 0 <= c < |layout[row]| ==> r.tilemap.cellBounds.Contains(Place(x0, y0, row, c)))
            && (forall q :: cv.tilemap.cellBounds.Contains(q) ==> r.tilemap.cellBounds.Contains(q))
  {
    if k > 0 {
      var before := PaintRows(cv, pal, x0, y0, layout, k - 1);
      PaintRowsBounds(cv, pal, x0, y0, layout, k - 1);
      PaintColsBounds(before, pal, x0, y0, k - 1, layout[k - 1], |layout[k - 1]|);
    }
  }

  /** Painting the layout leaves every cell it does not cover as it was. */
  lemma {:induction false} PaintRowsFrame(cv: Canvas, pal: Palette, x0: int, y0: int, layout: Layout, k: nat)
    requires k <= |layout|
    ensures var r := PaintRows(cv, pal, x0, y0, layout, k);
            forall p: Pos :: !Covered(x0, y0, layout, k, p) ==>
              (p in r.tilemap.tiles <==> p in cv.tilemap.tiles)
              && (p in cv.tilemap.tiles ==> r.tilemap.tiles[p] == cv.tilemap.tiles[p])
  {
    if k > 0 {
      PaintRowsFrame(cv, pal, x0, y0, layout, k - 1);
      PaintRowFrame(cv, PaintRows(cv, pal, x0, y0, layout, k - 1), pal, x0, y0, layout, k);
    }
  }

  /** Painting row `k - 1` over a canvas that agrees with `cv` off the first
      `k - 1` rows gives one that agrees with `cv` off the first `k`. */
  lemma PaintRowFrame(cv: Canvas, before: Canvas, pal: Palette, x0: int, y0: int, layout: Layout, k: nat)
    requires 0 < k <= |layout|
    requires forall p: Pos :: !Covered(x0, y0, layout, k - 1, p) ==>
               (p in before.tilemap.tiles <==> p in cv.tilemap.tiles)
               && (p in cv.tilemap.tiles ==> before.tilemap.tiles[p] == cv.tilemap.tiles[p])
    ensures var r := PaintCols(before, pal, x0, y0, k - 1, layout[k - 1], |layout[k - 1]|);
            forall p: Pos :: !Covered(x0, y0, layout, k, p) ==>
              (p in r.tilemap.tiles <==> p in cv.tilemap.tiles)
              && (p in cv.tilemap.tiles ==> r.tilemap.tiles[p] == cv.tilemap.tiles[p])
  {
    PaintColsFrame(before, pal, x0, y0, k - 1, layout[k - 1], |layout[k - 1]|);
  }

  /** Painting the layout records the last Start (End) entry in row-major
      order as the start (end), and keeps the previous one when there is
      none. */
  lemma {:induction false} PaintRowsMarks(cv: Canvas, pal: Palette, x0: int, y0: int, layout: Layout, k: nat)
    requires k <= |layout|
    ensures var r := PaintRows(cv, pal, x0, y0, layout, k);
            && (forall row, c :: LastInLayout(layout, 2, row, c, k) ==> r.start == Place(x0, y0, row, c))
            && (AbsentRows(layout, 2, 0, k) ==> r.start == cv.start)
            && (forall row, c :: LastInLayout(layout, 3, row, c, k) ==> r.end == Place(x0, y0, row, c))
            && (AbsentRows(layout, 3, 0, k) ==> r.end == cv.end)
  {
    if k > 0 {
      var before := PaintRows(cv, pal, x0, y0, layout, k - 1);
      var cells := layout[k - 1];
      PaintRowsMarks(cv, pal, x0, y0, layout, k - 1);
      PaintColsMarks(before, pal, x0, y0, k - 1, cells, |cells|);
      forall row, c | LastInLayout(layout, 2, row, c, k) && row < k - 1
        ensures LastInLayout(layout, 2, row, c, k - 1) && AbsentFrom(cells, 2, 0, |cells|)
      {
      }
      forall row, c | LastInLayout(layout, 3, row, c, k) && row < k - 1
        ensures LastInLayout(layout, 3, row, c, k - 1) && AbsentFrom(cells, 3, 0, |cells|)
      {
      }
    }
  }

  /** ClearGrid: every cell inside the tilemap's bounds gets the default
      tile; cells outside them and the bounds themselves are unchanged. */
  function ClearGrid(tm: Tilemap, d: TileId): (r: Tilemap)
    ensures r.cellBounds == tm.cellBounds
    ensures forall p :: tm.cellBounds.Contains(p) ==> p in r.tiles && r.tiles[p] == d
    ensures forall p :: !tm.cellBounds.Contains(p) ==>
              (p in r.tiles <==> p in tm.tiles) && (p in tm.tiles ==> r.tiles[p] == tm.tiles[p])
  {
    var b := tm.cellBounds;
    var inside := set x, y | b.xMin <= x < b.xMax && b.yMin <= y < b.yMax :: Pos(x, y);
    assert forall p :: b.Contains(p) ==> p in inside by {
      forall p | b.Contains(p) ensures p in inside {
        assert p == Pos(p.x, p.y);
      }
    }
    Tilemap(map p | p in tm.tiles.Keys + inside :: if b.Contains(p) then d else tm.tiles[p], b)
  }

  /** LoadCurrentLevel: with no level list, or an empty one, nothing
      happens; an index outside the list fails; otherwise the tilemap is
      cleared, the current layout is painted over it at (startX, startY),
      and the level counts as loaded. */
  function LoadCurrentLevel(m: Manager): (r: Option<Manager>)
    ensures m.levels.None? || |m.levels.value| == 0 ==> r == Some(m)
    ensures r.None? <==> m.levels.Some? && |m.levels.value| > 0
                         && !(0 <= m.currentLevelIndex < |m.levels.value|)
    ensures r.Some? && m.levels.Some? && |m.levels.value| > 0 ==>
              r.value == m.(tilemap := r.value.tilemap, currentStartPosition := r.value.currentStartPosition,
                            currentEndPosition := r.value.currentEndPosition, isLevelLoaded := true)
  {
    if m.levels.None? || |m.levels.value| == 0 then Some(m)
    else if !(0 <= m.currentLevelIndex < |m.levels.value|) then None
    else
      var layout := m.levels.value[m.currentLevelIndex];
      var cleared := Canvas(ClearGrid(m.tilemap, m.palette.default), m.currentStartPosition, m.currentEndPosition);
      var painted := PaintRows(cleared, m.palette, m.startX, m.startY, layout, |layout|);
      Some(m.(tilemap := painted.tilemap, currentStartPosition := painted.start,
              currentEndPosition := painted.end, isLevelLoaded := true))
  }

  /** The current level's layout; the index is in range. */
  function Current(m: Manager): Layout
    requires IndexInRange(m)
  {
    m.levels.value[m.currentLevelIndex]
  }

  /** After loading, every entry of the layout holds its code's tile at its
      place, inside the tilemap's bounds. */
  lemma LoadedTiles(m: Manager)
    requires IndexInRange(m)
    ensures var r := LoadCurrentLevel(m).value;
            forall row, c :: 0 <= row < |Current(m)| && 0 <= c < |Current(m)[row]| ==>
              var p := Place(m.startX, m.startY, row, c);
              p in r.tilemap.tiles && r.tilemap.tiles[p] == Paint(m.palette, Current(m)[row][c])
              && r.tilemap.cellBounds.Contains(p)
  {
    var layout := Current(m);
    var cleared := Canvas(ClearGrid(m.tilemap, m.palette.default), m.currentStartPosition, m.currentEndPosition);
    PaintRowsTiles(cleared, m.palette, m.startX, m.startY, layout, |layout|);
    PaintRowsBounds(cleared, m.palette, m.startX, m.startY, layout, |layout|);
  }

  /** After loading, the start and end are the cells of the last Start and
      End entries in row-major order, and the previous ones when the layout
      has none. */
  lemma LoadedEndpoints(m: Manager)
    requires IndexInRange(m)
    ensures var r := LoadCurrentLevel(m).value;
            var layout := Current(m);
            && (forall row, c :: LastInLayout(layout, 2, row, c, |layout|) ==>
                  r.currentStartPosition == Place(m.startX, m.startY, row, c))
            && (AbsentRows(layout, 2, 0, |layout|) ==> r.currentStartPosition == m.currentStartPosition)
            && (forall row, c :: LastInLayout(layout, 3, row, c, |layout|) ==>
                  r.currentEndPosition == Place(m.startX, m.startY, row, c))
            && (AbsentRows(layout, 3, 0, |layout|) ==> r.currentEndPosition == m.currentEndPosition)
  {
    var layout := Current(m);
    var cleared := Canvas(ClearGrid(m.tilemap, m.palette.default), m.currentStartPosition, m.currentEndPosition);
    PaintRowsMarks(cleared, m.palette, m.startX, m.startY, layout, |layout|);
  }

  /** After loading, every cell of the old bounds that the layout does not
      cover holds the default tile, and cells outside both are untouched. */
  lemma LoadedCleared(m: Manager)
    requires IndexInRange(m)
    ensures var r := LoadCurrentLevel(m).value;
            forall p: Pos :: !Covered(m.startX, m.startY, Current(m), |Current(m)|, p) ==>
              && (m.tilemap.cellBounds.Contains(p) ==> p in r.tilemap.tiles && r.tilemap.tiles[p] == m.palette.default)
              && (!m.tilemap.cellBounds.Contains(p) ==>
                    (p in r.tilemap.tiles <==> p in m.tilemap.tiles)
                    && (p in m.tilemap.tiles ==> r.tilemap.tiles[p] == m.tilemap.tiles[p]))
  {
    var layout := Current(m);
    var cleared := Canvas(ClearGrid(m.tilemap, m.palette.default), m.currentStartPosition, m.currentEndPosition);
    PaintRowsFrame(cleared, m.palette, m.startX, m.startY, layout, |layout|);
  }

  /** The index discipline the level switching keeps: the list is present
      and the index lies inside it. */
  predicate IndexInRange(m: Manager)
  {
    m.levels.Some? && 0 <= m.currentLevelIndex < |m.levels.value|
  }

  /** LoadLevel: an index outside the list is ignored (with no list only a
      negative index is; any other index fails on the missing list);
      otherwise it becomes the current index and that level is loaded. */
  function LoadLevel(m: Manager, levelIndex: int): (r: Option<Manager>)
    ensures levelIndex < 0 ==> r == Some(m)
    ensures m.levels.Some? && levelIndex >= |m.levels.value| ==> r == Some(m)
    ensures m.levels.None? && levelIndex >= 0 ==> r == None
    ensures m.levels.Some? && 0 <= levelIndex < |m.levels.value| ==>
              r.Some? && r.value.isLevelLoaded && r.value.currentLevelIndex == levelIndex
    ensures IndexInRange(m) ==> r.Some? && IndexInRange(r.value) && r.value.levels == m.levels
  {
    if levelIndex < 0 then Some(m)
    else if m.levels.None? then None
    else if levelIndex >= |m.levels.value| then Some(m)
    else LoadCurrentLevel(m.(currentLevelIndex := levelIndex))
  }

  /** NextLevel: advance and load only when not already at the last level. */
  function NextLevel(m: Manager): (r: Option<Manager>)
    ensures m.levels.None? ==> r == None
    ensures m.levels.Some? && m.currentLevelIndex >= |m.levels.value| - 1 ==> r == Some(m)
    ensures m.levels.Some? && 0 <= m.currentLevelIndex < |m.levels.value| - 1 ==>
              r.Some? && r.value.isLevelLoaded && r.value.currentLevelIndex == m.currentLevelIndex + 1
    ensures IndexInRange(m) ==> r.Some? && IndexInRange(r.value) && r.value.levels == m.levels
  {
    if m.levels.None? then None
    else if m.currentLevelIndex < |m.levels.value| - 1 then LoadCurrentLevel(m.(currentLevelIndex := m.currentLevelIndex + 1))
    else Some(m)
  }

  /** ResetLevel: reload only once a level has been loaded; reloading an
      in-range level never fails. */
  function ResetLevel(m: Manager): (r: Option<Manager>)
    ensures !m.isLevelLoaded ==> r == Some(m)
    ensures m.isLevelLoaded ==> r == LoadCurrentLevel(m)
    ensures IndexInRange(m) ==> r.Some? && IndexInRange(r.value) && r.value.levels == m.levels
  {
    if m.isLevelLoaded then LoadCurrentLevel(m) else Some(m)
  }

  /** CreateGrid: no grid until a level has been loaded; then a grid over
      the tilemap with the obstacle tile and the recorded start and end. */
  function CreateGrid(m: Manager): (g: Option<Grid>)
    ensures g.Some? <==> m.isLevelLoaded
    ensures g.Some? ==> g.value.tilemap == m.tilemap && g.value.obstacle == m.palette.obstacle
                        && g.value.start == m.currentStartPosition && g.value.end == m.currentEndPosition
                        && g.value.bounds == m.tilemap.cellBounds
  {
    if !m.isLevelLoaded then None
    else NewGrid(Some(m.tilemap), Some(m.palette.obstacle), m.currentStartPosition, m.currentEndPosition)
  }

  /** None of the other tiles is the obstacle tile. */
  predicate Distinct(p: Palette)
  {
    p.default != p.obstacle && p.start != p.obstacle && p.end != p.obstacle
  }

  /** After a level is loaded, the grid built from it finds a layout cell
      walkable exactly when its code is not the obstacle code. */
  lemma LoadedWalkability(m: Manager, row: int, col: int)
    requires IndexInRange(m) && Distinct(m.palette)
    requires 0 <= row < |Current(m)| && 0 <= col < |Current(m)[row]|
    ensures var g := CreateGrid(LoadCurrentLevel(m).value);
            g.Some? &&
            (IsWalkable(g.value, Place(m.startX, m.startY, row, col)) <==> Current(m)[row][col] != Records.TileCode(Records.Obstacle))
  {
    LoadedTiles(m);
  }
}
