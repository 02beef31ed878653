/** The quantity images: `q` countable items laid out on a nearly square
    grid, each in a square cell, with the last row centred. */
module QuantityGrid {
  import opened CppArith
  import opened Text
  import opened Svg

  /** The quantities the layout can be computed for: for zero or a negative
      quantity the column count is zero or undefined and the layout divides
      by it. */
  predicate ValidQuantity(q: int)
  {
    q >= 1
  }

  function Max(a: int, b: int): int { if a >= b then a else b }

  function Min(a: int, b: int): int { if a <= b then a else b }

  /** ceil(sqrt(q)) on integers: the smallest `c` with `c * c >= q`. */
  function CeilSqrt(q: nat): (c: nat)
    ensures c * c >= q
    ensures c > 0 ==> (c - 1) * (c - 1) < q
  {
    CeilSqrtFrom(q, 0)
  }

  /** The smallest `r >= c` with `r * r >= q`, for a `c` below the root. */
  function CeilSqrtFrom(q: nat, c: nat): (r: nat)
    requires c == 0 || (c - 1) * (c - 1) < q
    ensures r * r >= q
    ensures r > 0 ==> (r - 1) * (r - 1) < q
    decreases q - c
  {
    if c * c >= q then c
    else
      assert c <= c * c;
      CeilSqrtFrom(q, c + 1)
  }

  /** ceil(q / qreal(c)) on integers. */
  function CeilQuot(q: nat, c: int): (r: nat)
    requires c >= 1
    ensures r * c >= q
    ensures (r - 1) * c < q
  {
    var n := q + c - 1;
    assert n == c * (n / c) + n % c;
    n / c
  }

  /** The grid of a quantity image: its columns and rows, how many columns
      the last row fills, and the side of one square cell in pixels. */
  datatype Grid = Grid(columns: int, rows: int, columnsInLastRow: int, itemSize: int)

  /** The grid for `q` items fitted into the requested size. At least three
      cells' room is kept in each direction, so few items are not drawn huge. */
  function Layout(q: int, requested: Size): (g: Grid)
    requires ValidQuantity(q)
    ensures g.columns >= 1 && g.rows >= 1
    ensures g.columns * g.rows >= q
    ensures (g.rows - 1) * g.columns < q
    ensures 1 <= g.columnsInLastRow <= g.columns
    ensures (g.rows - 1) * g.columns + g.columnsInLastRow == q
  {
    var columns := CeilSqrt(q);
    var rows := CeilQuot(q, columns);
    var columnsInLastRow := if q % columns == 0 then columns else q % columns;
    LastRowCount(q, columns, rows);
    var itemSize := Min(Quot(requested.width, Max(3, columns)), Quot(requested.height, Max(3, rows)));
    Grid(columns, rows, columnsInLastRow, itemSize)
  }

  lemma LastRowCount(q: nat, c: int, r: int)
    requires c >= 1 && r * c >= q && (r - 1) * c < q
    ensures (r - 1) * c + (if q % c == 0 then c else q % c) == q
  {
    assert q == c * (q / c) + q % c;
    if q % c == 0 {
      RowsFromQuotient(q / c, r, c);
    } else {
      RowsFromQuotient(q / c + 1, r, c);
    }
  }

  /** `r` is pinned down by `(r - 1) * c < c * t` and `c * (t - 1) < r * c`. */
  lemma RowsFromQuotient(t: int, r: int, c: int)
    requires c >= 1 && (r - 1) * c < c * t && c * (t - 1) < r * c
    ensures r == t
  {
    MulCancel(c, r - 1, t);
    MulCancel(c, t - 1, r);
  }

  lemma MulMonotone(c: int, a: int, b: int)
    requires c >= 0 && a <= b
    ensures a * c <= b * c
  {
    assert b * c - a * c == (b - a) * c;
  }

  lemma MulCancel(c: int, a: int, b: int)
    requires c >= 1 && a * c < b * c
    ensures a < b
  {
    assert (b - a) * c == b * c - a * c;
  }

  /** The grid is nearly square: never more rows than columns, and at most
      one row fewer. */
  lemma LayoutNearlySquare(q: int, requested: Size)
    requires ValidQuantity(q)
    ensures var g := Layout(q, requested); g.columns - 1 <= g.rows <= g.columns
  {
    var g := Layout(q, requested);
    assert g.columns == CeilSqrt(q);
    NearlySquare(q, g.columns, g.rows);
  }

  lemma NearlySquare(q: int, c: int, r: int)
    requires c >= 1 && c * c >= q && (c - 1) * (c - 1) < q
    requires r * c >= q && (r - 1) * c < q
    ensures c - 1 <= r <= c
  {
    MulCancel(c, r - 1, c);
    assert (c - 1) * (c - 1) == (c - 2) * c + 1;
    MulCancel(c, c - 2, r);
  }

  /** `s` cells of side at most `w / d` fit in `w` when there are at most `d` of them. */
  lemma QuotFits(w: int, d: int, c: int, s: int)
    requires w >= 0 && d >= c >= 1 && 0 <= s <= w / d
    ensures s * c <= w
  {
    MulMonotone(s, c, d);
    MulMonotone(d, s, w / d);
    assert w == d * (w / d) + w % d;
  }

  /** One pixel more per cell no longer fits `d` cells in `w`. */
  lemma QuotMaximal(w: int, d: int)
    requires w >= 0 && d >= 1
    ensures (w / d + 1) * d > w
  {
    assert w == d * (w / d) + w % d;
  }

  /** For a non-negative requested size the grid fits inside it, and the cell
      is the largest that keeps room for at least three cells each way. */
  lemma LayoutFitsRequest(q: int, requested: Size)
    requires ValidQuantity(q) && requested.width >= 0 && requested.height >= 0
    ensures var g := Layout(q, requested);
      && g.itemSize >= 0
      && g.itemSize * g.columns <= requested.width
      && g.itemSize * g.rows <= requested.height
      && ((g.itemSize + 1) * Max(3, g.columns) > requested.width ||
          (g.itemSize + 1) * Max(3, g.rows) > requested.height)
  {
    var g := Layout(q, requested);
    var s, cw, rh := g.itemSize, Max(3, g.columns), Max(3, g.rows);
    var w, h := requested.width, requested.height;
    assert s == Min(w / cw, h / rh);
    QuotFits(w, cw, g.columns, s);
    QuotFits(h, rh, g.rows, s);
    QuotMaximal(w, cw);
    QuotMaximal(h, rh);
  }

  /** The rectangle of the cell in `row` and `column`. The last row is
      shifted right by half of its empty width. */
  function RectAt(g: Grid, row: int, column: int): Rect
  {
    var x := column * g.itemSize +
             (if row == g.rows - 1 then Quot((g.columns - g.columnsInLastRow) * g.itemSize, 2) else 0);
    Rect(x, row * g.itemSize, g.itemSize, g.itemSize)
  }

  /** The rectangle of the `k`-th item (0-based, row by row). */
  function CellRect(g: Grid, k: nat): Rect
    requires g.columns >= 1
  {
    RectAt(g, k / g.columns, k % g.columns)
  }

  /** The element drawn for an item: one of its eight pictures `item_1` to
      `item_8`, chosen by a draw of the random number generator. */
  function ItemId(item: string, draw: nat): (id: string)
    ensures exists n :: 1 <= n <= 8 && id == Numbered(item, n)
  {
    Numbered(item, draw % 8 + 1)
  }

  datatype Cell = Cell(itemId: string, rect: Rect)

  /** A quantity image: its pixel size and the cells drawn, in drawing order. */
  datatype QuantityImage = QuantityImage(size: Size, cells: seq<Cell>)

  /** What the placement of the cells relies on about a grid for `q` items. */
  ghost predicate Placed(g: Grid, q: int)
  {
    && g.columns >= 1 && g.rows >= 1 && g.itemSize >= 0
    && 1 <= g.columnsInLastRow <= g.columns
    && (g.rows - 1) * g.columns + g.columnsInLastRow == q
  }

  lemma LayoutPlaced(q: int, requested: Size)
    requires ValidQuantity(q) && requested.width >= 0 && requested.height >= 0
    ensures Placed(Layout(q, requested), q)
  {
    LayoutFitsRequest(q, requested);
  }

  /** Row and column of the cell `c * row + column`. */
  lemma DivModOfCell(c: int, row: int, column: int)
    requires c >= 1 && row >= 0 && 0 <= column < c
    ensures (c * row + column) / c == row && (c * row + column) % c == column
  {
    var n := c * row + column;
    var t, m := n / c, n % c;
    assert n == c * t + m;
    RowsFromQuotient(row + 1, t + 1, c);
  }

  /** The item `columns * row + column` is drawn in that row and column. */
  lemma CellRectAt(g: Grid, row: int, column: int)
    requires g.columns >= 1 && row >= 0 && 0 <= column < g.columns
    ensures CellRect(g, g.columns * row + column) == RectAt(g, row, column)
  {
    DivModOfCell(g.columns, row, column);
  }

  /** The `k`-th item lies in a row of the grid, and in the last row only in
      its first `columnsInLastRow` columns. */
  lemma RowOfCell(g: Grid, q: int, k: nat)
    requires Placed(g, q) && k < q
    ensures k == g.columns * (k / g.columns) + k % g.columns
    ensures 0 <= k / g.columns < g.rows && 0 <= k % g.columns < g.columns
    ensures k / g.columns == g.rows - 1 ==> k % g.columns < g.columnsInLastRow
  {
    var c := g.columns;
    var row, column := k / c, k % c;
    assert k == c * row + column;
    MulCancel(c, row, g.rows);
    if row == g.rows - 1 {
      assert k == (g.rows - 1) * c + column;
    }
  }

  lemma HalfWithin(e: int)
    requires e >= 0
    ensures 0 <= Quot(e, 2) <= e
  {
  }

  /** The cell in a used row and column lies inside the image. */
  lemma RectAtInside(g: Grid, q: int, row: int, column: int)
    requires Placed(g, q) && 0 <= row < g.rows && 0 <= column < g.columns
    requires row == g.rows - 1 ==> column < g.columnsInLastRow
    ensures var r := RectAt(g, row, column);
      && 0 <= r.x && r.x + r.width <= g.itemSize * g.columns
      && 0 <= r.y && r.y + r.height <= g.itemSize * g.rows
  {
    var c, s, cl := g.columns, g.itemSize, g.columnsInLastRow;
    MulMonotone(s, 0, column);
    MulMonotone(s, 0, row);
    MulMonotone(s, row + 1, g.rows);
    if row == g.rows - 1 {
      var empty := (c - cl) * s;
      MulMonotone(s, 0, c - cl);
      HalfWithin(empty);
      MulMonotone(s, column + 1, cl);
      assert cl * s + empty == c * s;
    } else {
      MulMonotone(s, column + 1, c);
    }
  }

  /** Every cell lies inside the image. */
  lemma CellInside(q: int, requested: Size, k: nat)
    requires ValidQuantity(q) && requested.width >= 0 && requested.height >= 0 && k < q
    ensures var g := Layout(q, requested); var r := CellRect(g, k);
      && 0 <= r.x && r.x + r.width <= g.itemSize * g.columns
      && 0 <= r.y && r.y + r.height <= g.itemSize * g.rows
  {
    var g := Layout(q, requested);
    LayoutPlaced(q, requested);
    RowOfCell(g, q, k);
    RectAtInside(g, q, k / g.columns, k % g.columns);
  }

  /** The last row is centred: the empty space left of it and right of it
      differ by at most one pixel. */
  lemma LastRowCentred(q: int, requested: Size)
    requires ValidQuantity(q) && requested.width >= 0 && requested.height >= 0
    ensures var g := Layout(q, requested);
      var left := CellRect(g, (g.rows - 1) * g.columns).x;
      var right := g.itemSize * g.columns - (CellRect(g, q - 1).x + g.itemSize);
      0 <= right - left <= 1
  {
    var g := Layout(q, requested);
    LayoutPlaced(q, requested);
    LastRowMargins(g, q);
  }

  lemma LastRowMargins(g: Grid, q: int)
    requires Placed(g, q)
    ensures var left := CellRect(g, (g.rows - 1) * g.columns).x;
      var right := g.itemSize * g.columns - (CellRect(g, q - 1).x + g.itemSize);
      0 <= right - left <= 1
  {
    var c, s, cl := g.columns, g.itemSize, g.columnsInLastRow;
    MulMonotone(c, 0, g.rows - 1);
    DivModOfCell(c, g.rows - 1, 0);
    assert c * (g.rows - 1) + 0 == (g.rows - 1) * c;
    DivModOfCell(c, g.rows - 1, cl - 1);
    assert c * (g.rows - 1) + (cl - 1) == q - 1;
    var offset := Quot((c - cl) * s, 2);
    MulMonotone(s, 0, c - cl);
    assert CellRect(g, (g.rows - 1) * c) == RectAt(g, g.rows - 1, 0);
    assert CellRect(g, q - 1) == RectAt(g, g.rows - 1, cl - 1);
    assert RectAt(g, g.rows - 1, 0).x == offset;
    assert RectAt(g, g.rows - 1, cl - 1).x + s == cl * s + offset;
    assert c * s == cl * s + (c - cl) * s;
  }

  /** Cell order is row by row: an earlier item is in an earlier row or
      further left in the same row. */
  lemma RowMajor(c: int, rj: int, cj: int, rk: int, ck: int)
    requires c >= 1 && 0 <= cj < c && 0 <= ck < c
    requires c * rj + cj < c * rk + ck
    ensures rj < rk || (rj == rk && cj < ck)
  {
    assert (rk + 1) * c == c * rk + c;
    MulCancel(c, rj, rk + 1);
  }

  /** Of two cells in row-major order, the later is right of or below the earlier. */
  lemma RectAtDisjoint(g: Grid, rj: int, cj: int, rk: int, ck: int)
    requires g.itemSize >= 0
    requires rj < rk || (rj == rk && cj < ck)
    ensures var a, b := RectAt(g, rj, cj), RectAt(g, rk, ck);
      a.x + a.width <= b.x || a.y + a.height <= b.y
  {
    var s := g.itemSize;
    if rj == rk {
      MulMonotone(s, cj + 1, ck);
    } else {
      MulMonotone(s, rj + 1, rk);
    }
  }

  /** No two cells overlap. */
  lemma CellsDisjoint(q: int, requested: Size, j: nat, k: nat)
    requires ValidQuantity(q) && requested.width >= 0 && requested.height >= 0
    requires j < k < q
    ensures var g := Layout(q, requested); var a, b := CellRect(g, j), CellRect(g, k);
      a.x + a.width <= b.x || a.y + a.height <= b.y
  {
    var g := Layout(q, requested);
    LayoutPlaced(q, requested);
    var c := g.columns;
    RowOfCell(g, q, j);
    RowOfCell(g, q, k);
    RowMajor(c, j / c, j % c, k / c, k % c);
    RectAtDisjoint(g, j / c, j % c, k / c, k % c);
  }

  /** quantity: the image of `q` items; `rand` holds the random draws, one
      per item, in drawing order. */
  method Quantity(q: int, item: string, requested: Size, rand: seq<nat>) returns (image: QuantityImage)
    requires ValidQuantity(q) && |rand| >= q
    ensures var g := Layout(q, requested);
      && image.size == Size(g.itemSize * g.columns, g.itemSize * g.rows)
      && |image.cells| == q
      && forall k :: 0 <= k < q ==> image.cells[k] == Cell(ItemId(item, rand[k]), CellRect(g, k))
  {
    var g := Layout(q, requested);
    var columns, rows, columnsInLastRow, itemSize := g.columns, g.rows, g.columnsInLastRow, g.itemSize;
    var cells: seq<Cell> := [];
    var row := 0;
    assert columns * 0 == 0;
    while row < rows
      invariant 0 <= row <= rows
      invariant |cells| == Min(columns * row, q)
      invariant forall k :: 0 <= k < |cells| ==> cells[k] == Cell(ItemId(item, rand[k]), CellRect(g, k))
    {
      MulMonotone(columns, row, rows - 1);
      assert columns * row == row * columns < q;
      var column := 0;
      while column < columns
        invariant 0 <= column <= columns
        invariant |cells| == columns * row + column <= q
        invariant forall k :: 0 <= k < |cells| ==> cells[k] == Cell(ItemId(item, rand[k]), CellRect(g, k))
      {
        if columns * row + column >= q {
          break;
        }
        var itemId := Numbered(item, rand[|cells|] % 8 + 1);
        var x := column * itemSize +
                 (if row == rows - 1 then Quot((columns - columnsInLastRow) * itemSize, 2) else 0);
        var itemRect := Rect(x, row * itemSize, itemSize, itemSize);
        assert itemRect == RectAt(g, row, column);
        CellRectAt(g, row, column);
        cells := cells + [Cell(itemId, itemRect)];
        column := column + 1;
      }
      assert |cells| == q || column == columns;
      assert columns * (row + 1) == columns * row + columns;
      row := row + 1;
    }
    image := QuantityImage(Size(itemSize * columns, itemSize * rows), cells);
  }
}
