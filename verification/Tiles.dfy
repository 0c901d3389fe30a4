/**
 Row-major tile numbering. Rows, columns and areas are defined by counting, which keeps products and
 quotients out of the other proofs; the lemmas here say that they are the source's `*`, `/` and `%`.
 */
module Tiles {
  import opened Arith

  /** The number of tiles in the first `rows` rows. */
  function Area(width: nat, rows: nat): nat {
    if rows == 0 then 0 else Area(width, rows - 1) + width
  }

  function TileIndex(width: nat, column: nat, row: nat): nat { Area(width, row) + column }

  function RowOf(width: nat, k: nat): nat
    requires width > 0
    decreases k
  {
    if k < width then 0 else RowOf(width, k - width) + 1
  }

  function ColumnOf(width: nat, k: nat): (c: nat)
    requires width > 0
    ensures c < width
    decreases k
  {
    if k < width then k else ColumnOf(width, k - width)
  }

  lemma {:induction false} AreaIsProduct(width: nat, rows: nat)
    ensures Area(width, rows) == width * rows
    ensures Area(width, rows) == rows * width
  {
    if rows != 0 {
      AreaIsProduct(width, rows - 1);
    }
  }

  lemma {:induction false} RowIsQuotient(width: nat, k: nat)
    requires width > 0
    ensures RowOf(width, k) == k / width && ColumnOf(width, k) == k % width
    decreases k
  {
    if k < width {
      DivModUnique(k, width, 0, k);
    } else {
      RowIsQuotient(width, k - width);
      var q, r := (k - width) / width, (k - width) % width;
      assert k - width == q * width + r;
      DivModUnique(k, width, q + 1, r);
    }
  }

  lemma {:induction false} AreaGrows(width: nat, a: nat, b: nat)
    requires a <= b
    ensures Area(width, a) <= Area(width, b)
  {
    if a < b {
      AreaGrows(width, a, b - 1);
    }
  }

  lemma {:induction false} TileIndexSplits(width: nat, column: nat, row: nat)
    requires column < width
    ensures RowOf(width, TileIndex(width, column, row)) == row
    ensures ColumnOf(width, TileIndex(width, column, row)) == column
    decreases row
  {
    if row > 0 {
      TileIndexSplits(width, column, row - 1);
      assert TileIndex(width, column, row) - width == TileIndex(width, column, row - 1);
    }
  }

  lemma {:induction false} TileIndexJoins(width: nat, k: nat)
    requires width > 0
    ensures TileIndex(width, ColumnOf(width, k), RowOf(width, k)) == k
    decreases k
  {
    if k >= width {
      TileIndexJoins(width, k - width);
    }
  }

  /** A tile number lies on the board exactly when its row does. */
  lemma InArea(width: nat, rows: nat, k: nat)
    requires width > 0
    ensures k < Area(width, rows) <==> RowOf(width, k) < rows
  {
    TileIndexJoins(width, k);
    if RowOf(width, k) < rows {
      AreaGrows(width, RowOf(width, k) + 1, rows);
    } else {
      AreaGrows(width, rows, RowOf(width, k));
    }
  }

  lemma TileIndexInRange(width: nat, height: nat, column: nat, row: nat)
    requires column < width && row < height
    ensures TileIndex(width, column, row) < Area(width, height)
  {
    TileIndexSplits(width, column, row);
    InArea(width, height, TileIndex(width, column, row));
  }
}
