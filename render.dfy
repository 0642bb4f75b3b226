/** The value-level part of `renderWalls`: the newest-first sort, done in
    place on the array of walls, and the column-major grid every wall is
    laid out in. */
module Render {
  import opened Timestamps
  import opened WallStore

  /** Columns used when a record has no column count (or 0). */
  const FallbackColumns: nat := 3

  /** One grid cell as rendered: its 1-based grid row and column and the
      texts shown in it. */
  datatype Cell = Cell(row: nat, col: nat, link: string, title: string, duration: string)

  /** One rendered wall: header data, grid shape and cells. */
  datatype WallView = WallView(capturedAt: int, videoId: string, columns: nat, rows: nat, cells: seq<Cell>)

  /** `wall.colCount || 3`. */
  function Columns(colCount: nat): (c: nat)
    ensures c >= 1
    ensures colCount != 0 ==> c == colCount
    ensures colCount == 0 ==> c == FallbackColumns
  {
    if colCount == 0 then FallbackColumns else colCount
  }

  /** `Math.ceil(n / cols)`. */
  function RowCount(n: nat, cols: nat): (r: nat)
    requires cols >= 1
    ensures n <= r * cols
    ensures r > 0 ==> (r - 1) * cols < n
  {
    (n + cols - 1) / cols
  }

  /** Grid position of item `i`, column-major: `(i % rows + 1, floor(i / rows) + 1)`. */
  function Placement(i: nat, rows: nat): (p: (nat, nat))
    requires rows >= 1
    ensures 1 <= p.0 <= rows && p.1 >= 1
    ensures i == (p.1 - 1) * rows + (p.0 - 1)
  {
    (i % rows + 1, i / rows + 1)
  }

  /** The title shown for an item: `item.title || "(untitled)"`. */
  function ShownTitle(title: string): (t: string)
    ensures t != ""
    ensures title != "" ==> t == title
    ensures title == "" ==> t == "(untitled)"
  {
    if title == "" then "(untitled)" else title
  }

  /** The duration badge: the length padded by one space each side, or nothing. */
  function ShownDuration(length: string): (d: string)
    ensures length == "" ==> d == ""
    ensures length != "" ==> |d| == |length| + 2 && d[0] == ' ' && d[|d| - 1] == ' ' && d[1..|d| - 1] == length
  {
    if length == "" then "" else " " + length + " "
  }

  /** The cell of item `i` in a grid of `rows` rows. */
  function CellAt(item: Item, i: nat, rows: nat): (c: Cell)
    requires rows >= 1
    ensures (c.row, c.col) == Placement(i, rows)
  {
    var p := Placement(i, rows);
    Cell(p.0, p.1, item.link, ShownTitle(item.title), ShownDuration(item.length))
  }

  lemma MulMonotone(a: int, b: int, r: int)
    requires r >= 1 && a * r < b * r
    ensures a < b
  {
  }

  lemma MulAtLeast(a: nat, c: int)
    requires c >= 1
    ensures a <= a * c
  {
  }

  /** Every item lands inside the `rows` x `cols` grid. */
  lemma PlacementInGrid(i: nat, n: nat, cols: nat)
    requires cols >= 1 && i < n
    ensures RowCount(n, cols) >= 1
    ensures var p := Placement(i, RowCount(n, cols));
      1 <= p.0 <= RowCount(n, cols) && 1 <= p.1 <= cols
  {
    var rows := RowCount(n, cols);
    assert rows >= 1;
    var q := i / rows;
    assert i == rows * q + i % rows;
    assert q * rows <= i < n <= rows * cols;
    MulMonotone(q, cols, rows);
  }

  /** Distinct items get distinct cells. */
  lemma PlacementInjective(i: nat, j: nat, rows: nat)
    requires rows >= 1
    requires Placement(i, rows) == Placement(j, rows)
    ensures i == j
  {
    assert i == rows * (i / rows) + i % rows;
    assert j == rows * (j / rows) + j % rows;
  }

  /** No row is empty: the first column holds one item in every row. */
  lemma EveryRowUsed(n: nat, cols: nat, r: nat)
    requires cols >= 1 && 1 <= r <= RowCount(n, cols)
    ensures r - 1 < n && Placement(r - 1, RowCount(n, cols)) == (r, 1)
  {
    var rows := RowCount(n, cols);
    MulAtLeast(rows - 1, cols);
    var k := r - 1;
    assert 0 <= k < rows;
    assert k / rows == 0 && k % rows == k;
  }

  /** Newest first: timestamps never increase along the sequence. */
  ghost predicate NewestFirst(s: seq<Wall>) {
    forall i, j :: 0 <= i < j < |s| ==> s[i].timestamp >= s[j].timestamp
  }

  /** Exchange two neighbouring walls. */
  method SwapAdjacent(a: array<Wall>, j: nat)
    requires 0 < j < a.Length
    modifies a
    ensures a[j - 1] == old(a[j]) && a[j] == old(a[j - 1])
    ensures forall k :: 0 <= k < a.Length && k != j - 1 && k != j ==> a[k] == old(a[k])
    ensures multiset(a[..]) == multiset(old(a[..]))
  {
    a[j - 1], a[j] := a[j], a[j - 1];
  }

  /** `walls.sort((a, b) => b.timestamp - a.timestamp)`, in place: an
      insertion sort that moves each wall left past every older one. */
  method SortNewestFirst(a: array<Wall>)
    modifies a
    ensures NewestFirst(a[..])
    ensures multiset(a[..]) == multiset(old(a[..]))
  {
    var i := 0;
    while i < a.Length
      invariant 0 <= i <= a.Length
      invariant forall p, q :: 0 <= p < q < i ==> a[p].timestamp >= a[q].timestamp
      invariant multiset(a[..]) == multiset(old(a[..]))
    {
      var j := i;
      while j > 0 && a[j - 1].timestamp < a[j].timestamp
        invariant 0 <= j <= i
        invariant forall p, q :: 0 <= p < q <= i && p != j && q != j ==> a[p].timestamp >= a[q].timestamp
        invariant forall q :: j < q <= i ==> a[j].timestamp > a[q].timestamp
        invariant multiset(a[..]) == multiset(old(a[..]))
      {
        SwapAdjacent(a, j);
        j := j - 1;
      }
      i := i + 1;
    }
  }

  /** Every item has a link. `new URL(item.link)` throws on the empty
      link, which is what a tile without `href` is saved with. */
  predicate Linked(items: seq<Item>) {
    forall k :: 0 <= k < |items| ==> items[k].link != ""
  }

  /** `v` is how wall `w` is shown. */
  ghost predicate Shows(v: WallView, w: Wall) {
    && v.capturedAt == DisplayTime(w.timestamp)
    && v.videoId == w.videoId
    && v.columns == Columns(w.colCount)
    && v.rows == RowCount(|w.items|, v.columns)
    && |v.cells| == |w.items|
    && forall k :: 0 <= k < |w.items| ==> v.rows >= 1 && v.cells[k] == CellAt(w.items[k], k, v.rows)
  }

  /** `wall.items.forEach((item, i) => ...)`: one cell per item, each placed
      inside the grid, no two in the same place. The loop stops with `ok`
      false at the first item whose link is empty, where `new URL` throws. */
  method LayOutGrid(items: seq<Item>, rows: nat, cols: nat) returns (cells: seq<Cell>, ok: bool)
    requires cols >= 1 && rows == RowCount(|items|, cols)
    ensures ok == Linked(items)
    ensures ok ==> |cells| == |items|
    ensures ok ==> forall i :: 0 <= i < |items| ==> rows >= 1 && cells[i] == CellAt(items[i], i, rows)
    ensures forall i :: 0 <= i < |cells| ==> 1 <= cells[i].row <= rows && 1 <= cells[i].col <= cols
    ensures forall i, j :: 0 <= i < j < |cells| ==> (cells[i].row, cells[i].col) != (cells[j].row, cells[j].col)
  {
    cells := [];
    var i := 0;
    while i < |items|
      invariant 0 <= i <= |items|
      invariant |cells| == i
      invariant forall k :: 0 <= k < i ==> items[k].link != ""
      invariant forall k :: 0 <= k < i ==> rows >= 1 && cells[k] == CellAt(items[k], k, rows)
    {
      if items[i].link == "" {
        break;
      }
      PlacementInGrid(i, |items|, cols);
      cells := cells + [CellAt(items[i], i, rows)];
      i := i + 1;
    }
    ok := i == |items|;
    forall k | 0 <= k < |cells|
      ensures 1 <= cells[k].row <= rows && 1 <= cells[k].col <= cols
    {
      PlacementInGrid(k, |items|, cols);
    }
    forall k, l | 0 <= k < l < |cells|
      ensures (cells[k].row, cells[k].col) != (cells[l].row, cells[l].col)
    {
      if (cells[k].row, cells[k].col) == (cells[l].row, cells[l].col) {
        PlacementInjective(k, l, rows);
      }
    }
  }

  /** `renderWalls`: sort the walls newest first, then lay out each one with
      its header time `timestamp * timestamp_norfac`, in order. An item with
      an empty link makes the layout throw before the overlay is attached,
      so then nothing is shown (`shown` false, no views); the array stays
      sorted. */
  method RenderWalls(walls: array<Wall>) returns (views: seq<WallView>, shown: bool)
    modifies walls
    ensures NewestFirst(walls[..])
    ensures multiset(walls[..]) == multiset(old(walls[..]))
    ensures shown == forall i :: 0 <= i < walls.Length ==> Linked(walls[i].items)
    ensures !shown ==> views == []
    ensures shown ==> |views| == walls.Length
    ensures shown ==> forall i :: 0 <= i < walls.Length ==> Shows(views[i], walls[i])
  {
    SortNewestFirst(walls);
    ghost var sorted := walls[..];
    views := [];
    var i := 0;
    while i < walls.Length
      invariant 0 <= i <= walls.Length
      invariant walls[..] == sorted
      invariant |views| == i
      invariant forall j :: 0 <= j < i ==> Linked(walls[j].items)
      invariant forall j :: 0 <= j < i ==> Shows(views[j], walls[j])
    {
      var w := walls[i];
      var cols := Columns(w.colCount);
      var rows := RowCount(|w.items|, cols);
      var cells, ok := LayOutGrid(w.items, rows, cols);
      if !ok {
        return [], false;
      }
      views := views + [WallView(DisplayTime(w.timestamp), w.videoId, cols, rows, cells)];
      i := i + 1;
    }
    shown := true;
  }
}
