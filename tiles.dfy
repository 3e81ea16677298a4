/**
 * The tile arithmetic of `game::load_level`: each number in the tile map names
 * a 32x32 cell of a tile sheet that is 10 cells wide and 3 cells high. The
 * column of the cell is the number's remainder by 10 (C++ `%`, which truncates
 * toward zero), and its row is found by scanning the three rows for the one
 * whose range of numbers holds it, staying 0 when none does. The sprite is cut
 * from the sheet at (column, row) * 32 and placed in the world at the map's
 * (column, row) * 32.
 */
module Tiles {

  const TileSize: int := 32
  const TilemapCols: int := 10
  const TilemapRows: int := 3

  /** C++ `a % b` for a positive `b`: the sign of the remainder follows `a`. */
  function CRem(a: int, b: int): (r: int)
    requires b > 0
    ensures -b < r < b
    ensures a >= 0 ==> r >= 0
    ensures a < 0 ==> r <= 0
    ensures (a - r) % b == 0
  {
    RemainderCongruent(a, b);
    if a >= 0 then a % b else -((-a) % b)
  }

  /** Both branches of `CRem` differ from `a` by a multiple of `b`. */
  lemma RemainderCongruent(a: int, b: int)
    requires b > 0
    ensures a >= 0 ==> (a - a % b) % b == 0
    ensures a < 0 ==> (a + (-a) % b) % b == 0
  {
    if a >= 0 {
      assert a - a % b == (a / b) * b;
      MultipleRem(a / b, b);
    } else {
      assert a + (-a) % b == (-((-a) / b)) * b;
      MultipleRem(-((-a) / b), b);
    }
  }

  /** A multiple of `b` leaves no remainder. */
  lemma MultipleRem(q: int, b: int)
    requires b > 0
    ensures (q * b) % b == 0
  {
    var m := q * b;
    var k := q - m / b;
    assert k * b == m % b;
  }

  /**
   * The sheet column of tile `t`: `tile_index % tilemap_cols`. It differs from the
   * number by a multiple of the sheet width, and lies on the sheet for a number
   * that is not negative.
   */
  function XIndex(t: int): (r: int)
    ensures (t - r) % TilemapCols == 0
    ensures -TilemapCols < r < TilemapCols
    ensures t >= 0 ==> 0 <= r
  {
    CRem(t, TilemapCols)
  }

  /** The sheet row a tile number lies in, or 0 for a number on no row. */
  function TileRow(t: int): (r: int)
    ensures 0 <= r < TilemapRows
    ensures 0 <= t < TilemapCols * TilemapRows ==> r * TilemapCols <= t < (r + 1) * TilemapCols
    ensures !(0 <= t < TilemapCols * TilemapRows) ==> r == 0
  {
    if 0 <= t < TilemapCols * TilemapRows then t / TilemapCols else 0
  }

  /**
   * The row scan: row `i` covers the numbers `i * 10` through `i * 10 + 9`; the
   * first row that holds `t` is taken, and the index stays 0 when none does.
   */
  method YIndex(t: int) returns (y: int)
    ensures y == TileRow(t)
    ensures 0 <= y < TilemapRows
    ensures 0 <= t < TilemapCols * TilemapRows ==> y * TilemapCols <= t < (y + 1) * TilemapCols
  {
    y := 0;
    var i := 0;
    while i < TilemapRows
      invariant 0 <= i <= TilemapRows
      invariant y == 0
      invariant 0 <= t ==> i * TilemapCols <= t
    {
      var smallestCol := i * TilemapCols;
      var biggestCol := smallestCol + (TilemapCols - 1);
      if !(t < smallestCol) && !(t > biggestCol) {
        y := i;
        assert t / TilemapCols == i;
        return;
      }
      i := i + 1;
    }
  }

  /** Where the sprite of a tile is cut from the sheet: `(x_index, y_index) * tile_size`. */
  function SourceOffset(t: int): (r: (int, int))
    ensures r.0 % TileSize == 0 && r.1 % TileSize == 0
    ensures 0 <= r.1 < TilemapRows * TileSize
    ensures t >= 0 ==> 0 <= r.0 < TilemapCols * TileSize
  {
    (XIndex(t) * TileSize, TileRow(t) * TileSize)
  }

  /** Where the tile at map `row` and `column` is placed: `(column, row) * tile_size`. */
  function Destination(row: int, column: int): (r: (int, int))
    ensures r.0 % TileSize == 0 && r.0 / TileSize == column
    ensures r.1 % TileSize == 0 && r.1 / TileSize == row
  {
    (column * TileSize, row * TileSize)
  }

  /** A number on the sheet names the cell it is the index of, read row by row. */
  lemma OnSheet(t: int)
    requires 0 <= t < TilemapCols * TilemapRows
    ensures 0 <= XIndex(t) < TilemapCols && 0 <= TileRow(t) < TilemapRows
    ensures TileRow(t) * TilemapCols + XIndex(t) == t
    ensures XIndex(t) == t % TilemapCols && TileRow(t) == t / TilemapCols
  {
  }

  /** Distinct numbers on the sheet are cut from distinct cells. */
  lemma SourceOffsetInjective(t: int, u: int)
    requires 0 <= t < TilemapCols * TilemapRows && 0 <= u < TilemapCols * TilemapRows
    requires SourceOffset(t) == SourceOffset(u)
    ensures t == u
  {
    OnSheet(t);
    OnSheet(u);
  }

  /**
   * A number past the sheet keeps its column but falls back to row 0: it is cut
   * from the same cell as its remainder.
   */
  lemma PastSheet(t: int)
    requires t >= TilemapCols * TilemapRows
    ensures TileRow(t) == 0
    ensures SourceOffset(t) == SourceOffset(t % TilemapCols)
  {
  }

  /** A negative number gets a column at or left of the sheet's first, on row 0. */
  lemma BelowSheet(t: int)
    requires t < 0
    ensures TileRow(t) == 0
    ensures -TilemapCols < XIndex(t) <= 0
    ensures SourceOffset(t).0 == -(((-t) % TilemapCols) * TileSize)
  {
  }

  /** The world point (x, y) lies in the square the tile at map `row` and `column` is drawn on. */
  predicate InTile(row: int, column: int, x: int, y: int)
  {
    var (left, top) := Destination(row, column);
    left <= x < left + TileSize && top <= y < top + TileSize
  }

  /** Along one axis, a coordinate lies in exactly one tile-sized interval: the one its floor quotient names. */
  lemma IntervalIndex(k: int, x: int)
    ensures k * TileSize <= x < k * TileSize + TileSize <==> k == x / TileSize
  {
    var q := x / TileSize;
    assert q * TileSize <= x < q * TileSize + TileSize;
    if k < q {
      assert k * TileSize + TileSize <= q * TileSize;
    } else if k > q {
      assert q * TileSize + TileSize <= k * TileSize;
    }
  }

  /**
   * No two placed tiles overlap: an integer point lies in the square of exactly
   * one map position, the one found by dividing by the tile size.
   */
  lemma TileSquares(row: int, column: int, x: int, y: int)
    ensures InTile(row, column, x, y) <==> row == y / TileSize && column == x / TileSize
  {
    IntervalIndex(column, x);
    IntervalIndex(row, y);
  }
}
