/** Level/Level.cs: the level asset, a list of integer rows of declared width
    and height, with the two ways of (re)building the rows. A null list is
    `None`; a null `Row` object or a null inner list is a `None` row. The
    operations that construct `new List<Row>(gridHeight)` fail when the height
    is negative (the list constructor rejects a negative capacity); that
    failure is `None`. */
module Levels {
  import opened Options

  type Rows = seq<Option<seq<int>>>

  datatype Level = Level(levelName: string, gridWidth: int, gridHeight: int, grid: Option<Rows>)

  function Max0(n: int): nat
  {
    if n < 0 then 0 else n
  }

  /** The Row constructor: `width` zeros, none when the width is negative. */
  function Row(width: int): (r: seq<int>)
    ensures |r| == Max0(width)
    ensures forall x :: 0 <= x < |r| ==> r[x] == 0
  {
    seq(Max0(width), _ => 0)
  }

  /** Every row is present and exactly `gridWidth` long, and there are
      exactly `gridHeight` of them: the shape OnEnable accepts. */
  predicate WellFormed(l: Level)
  {
    && l.grid.Some? && |l.grid.value| == l.gridHeight
    && forall y :: 0 <= y < |l.grid.value| ==> l.grid.value[y].Some? && |l.grid.value[y].value| == l.gridWidth
  }

  /** InitializeGrid: `gridHeight` fresh rows of zeros; nothing but the rows
      changes. */
  function InitializeGrid(l: Level): (r: Option<Level>)
    ensures r.None? <==> l.gridHeight < 0
    ensures r.Some? ==> r.value == l.(grid := r.value.grid) && r.value.grid.Some?
    ensures r.Some? ==> var g := r.value.grid.value;
              && |g| == l.gridHeight
              && (forall y :: 0 <= y < |g| ==> g[y].Some? && |g[y].value| == Max0(l.gridWidth))
              && (forall y, x :: 0 <= y < |g| && g[y].Some? && 0 <= x < |g[y].value| ==> g[y].value[x] == 0)
    ensures r.Some? && l.gridWidth >= 0 ==> WellFormed(r.value)
  {
    if l.gridHeight < 0 then None
    else Some(l.(grid := Some(seq(l.gridHeight, _ => Some(Row(l.gridWidth))))))
  }

  /** The value cell (y, x) had before resizing: the old entry when row `y`
      existed, was present and was long enough, and 0 otherwise. */
  function OldCell(prior: Rows, y: nat, x: nat): int
  {
    if y < |prior| && prior[y].Some? && x < |prior[y].value| then prior[y].value[x] else 0
  }

  /** The copy loop of ResizeGrid for one row: a zero row of the new width
      whose first min(width, old length) entries are overwritten. */
  method ResizeRow(prior: Option<seq<int>>, width: int) returns (row: seq<int>)
    ensures |row| == Max0(width)
    ensures forall x :: 0 <= x < |row| ==> row[x] == (if prior.Some? && x < |prior.value| then prior.value[x] else 0)
  {
    row := Row(width);
    if prior.Some? {
      var limit := if width < |prior.value| then width else |prior.value|;
      var x := 0;
      while x < limit
        invariant 0 <= x && (limit >= 0 ==> x <= limit)
        invariant |row| == Max0(width)
        invariant forall i :: 0 <= i < |row| ==> row[i] == (if i < x && i < |prior.value| then prior.value[i] else 0)
      {
        row := row[x := prior.value[x]];
        x := x + 1;
      }
    }
  }

  /** ResizeGrid: `gridHeight` rows of `gridWidth` cells each, keeping every
      old value that still fits and filling the rest with 0. It fails on a
      null list as well as on a negative height. A well-formed level comes
      back unchanged, so resizing twice is the same as resizing once, and a
      level without rows comes back initialised. */
  method ResizeGrid(l: Level) returns (r: Option<Level>)
    ensures r.None? <==> l.grid.None? || l.gridHeight < 0
    ensures r.Some? ==> r.value == l.(grid := r.value.grid) && r.value.grid.Some?
    ensures r.Some? ==> var g := r.value.grid.value;
              && |g| == l.gridHeight
              && (forall y :: 0 <= y < |g| ==> g[y].Some? && |g[y].value| == Max0(l.gridWidth))
              && (forall y, x :: 0 <= y < |g| && g[y].Some? && 0 <= x < |g[y].value| ==>
                    g[y].value[x] == OldCell(l.grid.value, y, x))
    ensures r.Some? && l.gridWidth >= 0 ==> WellFormed(r.value)
    ensures WellFormed(l) ==> r == Some(l)
    ensures l.grid == Some([]) && l.gridHeight >= 0 ==> r == InitializeGrid(l)
  {
    if l.grid.None? || l.gridHeight < 0 {
      return None;
    }
    var prior := l.grid.value;
    var rows: Rows := [];
    var y := 0;
    while y < l.gridHeight
      invariant 0 <= y <= l.gridHeight && |rows| == y
      invariant forall i :: 0 <= i < y ==> rows[i].Some? && |rows[i].value| == Max0(l.gridWidth)
      invariant forall i, x :: 0 <= i < y && rows[i].Some? && 0 <= x < |rows[i].value| ==>
                  rows[i].value[x] == OldCell(prior, i, x)
    {
      var source := if y < |prior| then prior[y] else None;
      var row := ResizeRow(source, l.gridWidth);
      rows := rows + [Some(row)];
      y := y + 1;
    }
    if WellFormed(l) {
      SameRows(rows, prior);
    }
    if prior == [] {
      SameRows(rows, InitializeGrid(l).value.grid.value);
    }
    r := Some(l.(grid := Some(rows)));
  }

  /** Two grids with the same shape and the same cells are equal. */
  lemma SameRows(a: Rows, b: Rows)
    requires |a| == |b|
    requires forall y :: 0 <= y < |a| ==> a[y].Some? && b[y].Some? && |a[y].value| == |b[y].value|
    requires forall y, x :: 0 <= y < |a| && a[y].Some? && b[y].Some? && 0 <= x < |a[y].value| ==> a[y].value[x] == b[y].value[x]
    ensures a == b
  {
    forall y | 0 <= y < |a| ensures a[y] == b[y] {
      assert a[y].value == b[y].value;
    }
  }

  /** OnEnable: a level whose row list has the wrong length, or has a
      missing or wrongly sized row, is re-initialised; a well-formed one is
      left untouched. */
  method OnEnable(l: Level) returns (r: Option<Level>)
    ensures WellFormed(l) ==> r == Some(l)
    ensures !WellFormed(l) ==> r == InitializeGrid(l)
    ensures l.gridWidth >= 0 && r.Some? ==> WellFormed(r.value)
  {
    if l.grid.None? || |l.grid.value| != l.gridHeight {
      return InitializeGrid(l);
    }
    var rows := l.grid.value;
    var i := 0;
    while i < |rows|
      invariant 0 <= i <= |rows|
      invariant forall y :: 0 <= y < i ==> rows[y].Some? && |rows[y].value| == l.gridWidth
    {
      if rows[i].None? || |rows[i].value| != l.gridWidth {
        return InitializeGrid(l);
      }
      i := i + 1;
    }
    r := Some(l);
  }
}
