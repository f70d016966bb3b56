/**
 The arithmetic half of a spritesheet: how a texture is cut into a grid of
 equally sized cells, and how a cell index is turned into the rectangle it
 covers. Tiles are numbered row-major ("right-down"): left to right along a
 row, then top to bottom.

 The engine's texture is abstracted to its two pixel dimensions, and a region
 to a plain value record (the texture it belongs to, its origin and its size).
 */
module SheetGeometry {

  /** A loaded texture, seen only through its pixel dimensions. */
  datatype Texture = Texture(width: nat, height: nat)

  /** A rectangular sub-region of a texture, in the texture's pixel coordinates. */
  datatype Region = Region(texture: Texture, x: int, y: int, width: int, height: int)

  /** The region lies wholly inside the texture it refers to. */
  predicate InsideTexture(r: Region)
  {
    0 <= r.x && r.x + r.width <= r.texture.width &&
    0 <= r.y && r.y + r.height <= r.texture.height
  }

  /**
   A texture can be cut into columns of width `tw` when `tw` is positive and
   at least one whole column fits. Otherwise the source either divides by zero
   (`tw == 0`, or a texture narrower than one cell) or, for a negative `tw`,
   does something this model leaves out.
   */
  predicate Sliceable(tex: Texture, tw: int)
  {
    tw > 0 && tex.width / tw > 0
  }

  /** Number of whole cells of width `cellWidth` across the texture; see `ColumnsFit`. */
  function Columns(tex: Texture, cellWidth: int): nat
    requires cellWidth > 0
  {
    tex.width / cellWidth
  }

  /** Number of whole cells of height `cellHeight` down the texture; see `RowsFit`. */
  function Rows(tex: Texture, cellHeight: int): nat
    requires cellHeight > 0
  {
    tex.height / cellHeight
  }

  /** The column count is the largest number of whole cells that fit across the texture. */
  lemma ColumnsFit(tex: Texture, cellWidth: int)
    requires cellWidth > 0
    ensures var n := Columns(tex, cellWidth);
            n * cellWidth <= tex.width < (n + 1) * cellWidth
  {
    var n := Columns(tex, cellWidth);
    assert tex.width == n * cellWidth + tex.width % cellWidth;
  }

  /** The row count is the largest number of whole cells that fit down the texture. */
  lemma RowsFit(tex: Texture, cellHeight: int)
    requires cellHeight > 0
    ensures var n := Rows(tex, cellHeight);
            n * cellHeight <= tex.height < (n + 1) * cellHeight
  {
    var n := Rows(tex, cellHeight);
    assert tex.height == n * cellHeight + tex.height % cellHeight;
  }

  /** Number of whole cells in the grid; see `CellInsideIff` for what it means. */
  function CellCount(tex: Texture, cellWidth: int, cellHeight: int): nat
    requires cellWidth > 0 && cellHeight > 0
  {
    Columns(tex, cellWidth) * Rows(tex, cellHeight)
  }

  /**
   The region of cell `index`: column `index % Columns`, row `index / Columns`,
   each scaled by the cell size, and exactly one cell in size. The column always
   lies inside the texture; the row does so exactly when `index < CellCount`
   (`CellInsideIff`).
   */
  function RegionFromSheet(tex: Texture, tw: int, th: int, index: nat): (r: Region)
    requires Sliceable(tex, tw)
    ensures r.texture == tex && r.width == tw && r.height == th
    ensures 0 <= r.x && r.x + tw <= tex.width && r.x % tw == 0
    ensures th > 0 ==> 0 <= r.y && r.y % th == 0
  {
    var setWidth := Columns(tex, tw);
    var column := index % setWidth;
    var row := index / setWidth;
    ColumnFits(tex, tw, column);
    MulDivCancel(column, tw);
    RowAligned(row, th);
    Region(tex, column * tw, row * th, tw, th)
  }

  /** The cell index whose region has origin (x, y): the inverse of the row-major mapping. */
  function IndexAt(tex: Texture, tw: int, th: int, x: int, y: int): int
    requires Sliceable(tex, tw) && th > 0
  {
    (y / th) * Columns(tex, tw) + x / tw
  }

  /** The origin of a cell's region determines the cell: decoding it gives back the index. */
  lemma {:induction false} OriginRoundTrip(tex: Texture, tw: int, th: int, index: nat)
    requires Sliceable(tex, tw) && th > 0
    ensures var r := RegionFromSheet(tex, tw, th, index);
            && r.x / tw == index % Columns(tex, tw) < Columns(tex, tw)
            && r.y / th == index / Columns(tex, tw)
            && IndexAt(tex, tw, th, r.x, r.y) == index
  {
    var setWidth := Columns(tex, tw);
    var r := RegionFromSheet(tex, tw, th, index);
    MulDivCancel(index % setWidth, tw);
    MulDivCancel(index / setWidth, th);
    assert r.x / tw == index % setWidth;
    assert r.y / th == index / setWidth;
  }

  /** Distinct cells have distinct origins, so no two cells overlap at their corner. */
  lemma OriginsDistinct(tex: Texture, tw: int, th: int, i: nat, j: nat)
    requires Sliceable(tex, tw) && th > 0
    requires i != j
    ensures var ri, rj := RegionFromSheet(tex, tw, th, i), RegionFromSheet(tex, tw, th, j);
            (ri.x, ri.y) != (rj.x, rj.y)
  {
    OriginRoundTrip(tex, tw, th, i);
    OriginRoundTrip(tex, tw, th, j);
  }

  /**
   The grid has exactly the cells that fit: the region of `index` lies wholly
   inside the texture if and only if `index` is below `CellCount`.
   */
  lemma {:induction false} CellInsideIff(tex: Texture, tw: int, th: int, index: nat)
    requires Sliceable(tex, tw) && th > 0
    ensures index < CellCount(tex, tw, th) <==> InsideTexture(RegionFromSheet(tex, tw, th, index))
  {
    var setWidth := Columns(tex, tw);
    var row := index / setWidth;
    RowOfIndexIff(index, setWidth, Rows(tex, th));
    RowFitsIff(tex, th, row);
    assert RegionFromSheet(tex, tw, th, index).y == row * th;
  }

  /** In row-major order an index is below `columns * rows` exactly when its row is below `rows`. */
  lemma RowOfIndexIff(index: nat, columns: nat, rows: nat)
    requires columns > 0
    ensures index < columns * rows <==> index / columns < rows
  {
    var row := index / columns;
    assert index == row * columns + index % columns;
    if row < rows {
      MulLe(row + 1, rows, columns);
    } else {
      MulLe(rows, row, columns);
    }
  }

  /** Row `row` ends inside the texture exactly when it is below the row count. */
  lemma RowFitsIff(tex: Texture, th: int, row: nat)
    requires th > 0
    ensures 0 <= row * th && (row * th + th <= tex.height <==> row < Rows(tex, th))
  {
    var rows := Rows(tex, th);
    RowsFit(tex, th);
    MulLe(0, row, th);
    if row < rows {
      MulLe(row + 1, rows, th);
    } else {
      MulLe(rows + 1, row + 1, th);
    }
  }

  /** Multiplying by a positive number and dividing by it again gives back the factor, exactly. */
  lemma MulDivCancel(a: int, b: int)
    requires b > 0
    ensures (a * b) / b == a && (a * b) % b == 0
  {
    var q, m := (a * b) / b, (a * b) % b;
    assert (a - q) * b == m;
    if a - q >= 1 {
      MulLe(1, a - q, b);
    } else if a - q <= -1 {
      MulLe(a - q, -1, b);
    }
  }

  /** A row origin is a non-negative multiple of a positive cell height. */
  lemma RowAligned(row: nat, th: int)
    ensures th > 0 ==> 0 <= row * th && (row * th) % th == 0
  {
    if th > 0 {
      MulDivCancel(row, th);
      MulLe(0, row, th);
    }
  }

  /** Multiplication by a non-negative number is monotonic. */
  lemma MulLe(a: int, b: int, c: int)
    requires a <= b && c >= 0
    ensures a * c <= b * c
  {
    assert b * c - a * c == (b - a) * c;
  }

  /** A column below the column count ends inside the texture. */
  lemma ColumnFits(tex: Texture, tw: int, column: int)
    requires Sliceable(tex, tw) && 0 <= column < Columns(tex, tw)
    ensures 0 <= column * tw && column * tw + tw <= tex.width
  {
    ColumnsFit(tex, tw);
    MulLe(0, column, tw);
    MulLe(column + 1, Columns(tex, tw), tw);
  }

  /** A 64x32 texture cut into 16x16 cells: 4 columns, 2 rows, and cell 5 at (16, 16). */
  lemma Example64By32()
    ensures CellCount(Texture(64, 32), 16, 16) == 8
    ensures RegionFromSheet(Texture(64, 32), 16, 16, 5) == Region(Texture(64, 32), 16, 16, 16, 16)
  {
  }

  /** A 100x50 texture cut into 10x10 cells: 50 cells, the last at (90, 40). */
  lemma Example100By50()
    ensures CellCount(Texture(100, 50), 10, 10) == 50
    ensures RegionFromSheet(Texture(100, 50), 10, 10, 49) == Region(Texture(100, 50), 90, 40, 10, 10)
  {
  }
}
