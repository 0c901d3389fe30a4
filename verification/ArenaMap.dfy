/** Arena maps and the two coordinate systems on them: tile numbers and centred world units. */
module ArenaMap {
  import opened Masks
  import opened Prelude
  import opened Tiles

  const MAX_MAP_DIMENSION_TILES: nat := 128

  datatype ObstacleKind = Pillar | Shrub

  datatype FeatureKind = TrainingDummyResetFull | TrainingDummyExecute

  datatype Point = Point(x: i16, y: i16)

  datatype Obstacle = Obstacle(kind: ObstacleKind, center: Point, halfWidth: nat, halfHeight: nat)

  datatype Feature = Feature(kind: FeatureKind, center: Point)

  datatype ArenaMap = ArenaMap(
    mapId: string, widthTiles: u16, heightTiles: u16, tileUnits: u16, widthUnits: u16, heightUnits: u16,
    objectiveTargetMs: u32, footprintMask: Mask, objectiveMask: Mask,
    teamAAnchors: seq<Point>, teamBAnchors: seq<Point>, obstacles: seq<Obstacle>, features: seq<Feature>)

  /** The reasons the map code gives for refusing its input. */
  datatype ContentError =
    | NoRows
    | ZeroTileUnits
    | WidthOutOfRange(width: nat)
    | HeightOutOfRange(height: nat)
    | WidthUnitsOverflow
    | HeightUnitsOverflow
    | CellOverflow(column: nat, row: nat)
    | UnsupportedGlyph(glyph: char, rowNumber: nat, columnNumber: nat)
    | NoTeamA
    | NoTeamB
    | TooManyTeamA
    | TooManyTeamB
    | OffTile(center: Point)
    | NoObjective
    | NoCandidateTiles
    | NoLayoutFound

  function TileCount(m: ArenaMap): nat { Area(m.widthTiles, m.heightTiles) }

  /** World units across `tiles` tiles: their product, which `UnitsAreProduct` says and most proofs need not see. */
  function Units(tiles: nat, tileUnits: nat): nat { Area(tileUnits, tiles) }

  lemma UnitsAreProduct(tiles: nat, tileUnits: nat)
    ensures Units(tiles, tileUnits) == tiles * tileUnits
  {
    AreaIsProduct(tileUnits, tiles);
  }

  /** What every parsed map satisfies and every coordinate function assumes. */
  predicate ValidGeometry(m: ArenaMap) {
    && m.tileUnits > 0 && m.widthTiles > 0 && m.heightTiles > 0
    && m.widthUnits == Units(m.widthTiles, m.tileUnits)
    && m.heightUnits == Units(m.heightTiles, m.tileUnits)
  }

  // ----- one axis

  /** Centre, in units about the middle of the axis, of tile `t`. */
  function AxisCenter(units: nat, tileUnits: nat, t: nat): int {
    TruncDiv(0 - units, 2) + Units(t, tileUnits) + tileUnits / 2
  }

  function AxisTile(units: nat, tileUnits: nat, x: int): Option<nat>
    requires tileUnits > 0
  {
    var offset := x + units / 2 - tileUnits / 2;
    if offset < 0 || ColumnOf(tileUnits, offset) != 0 || offset >= units then None else Some(RowOf(tileUnits, offset))
  }

  /** Centres of tiles of an axis of at most `U16_MAX` units fit `i16`. */
  lemma AxisCenterFits(n: nat, tileUnits: nat, t: nat)
    requires tileUnits > 0 && t < n && Units(n, tileUnits) <= U16_MAX
    ensures -32767 <= AxisCenter(Units(n, tileUnits), tileUnits, t) <= 32767
  {
    AreaGrows(tileUnits, t + 1, n);
  }

  /** An even factor makes an even product. */
  lemma EvenProduct(n: nat, u: nat)
    requires u % 2 == 0
    ensures n * u % 2 == 0
  {
    assert n * u == 2 * (n * (u / 2));
  }

  /**
   The middle of tile `t`, which reaches from `t * tileUnits` to `(t + 1) * tileUnits` along the `n * tileUnits`
   units of the axis, measured from the middle of the axis and rounded down to whole units.
   */
  function TileMiddle(n: nat, tileUnits: nat, t: nat): int {
    (t * tileUnits + (t + 1) * tileUnits - n * tileUnits) / 2
  }

  /** The centre of a tile is its middle. */
  lemma AxisCenterIsMiddle(n: nat, tileUnits: nat, t: nat)
    ensures AxisCenter(Units(n, tileUnits), tileUnits, t) == TileMiddle(n, tileUnits, t)
  {
    UnitsAreProduct(n, tileUnits);
    UnitsAreProduct(t, tileUnits);
    assert (t + 1) * tileUnits == t * tileUnits + tileUnits;
    if tileUnits % 2 == 0 {
      EvenProduct(n, tileUnits);
    }
  }

  /** A bar that reaches half a tile either way from the centre stays on its tile, and covers all but a unit of it. */
  lemma HalfTileStaysInside(n: nat, tileUnits: nat, t: nat)
    ensures var (x, half) := (AxisCenter(Units(n, tileUnits), tileUnits, t), tileUnits / 2);
            && 2 * (t * tileUnits) - n * tileUnits <= 2 * (x - half)
            && 2 * (x + half) <= 2 * ((t + 1) * tileUnits) - n * tileUnits
            && tileUnits - 1 <= 2 * half <= tileUnits
  {
    hide AxisCenter, Units;
    AxisCenterIsMiddle(n, tileUnits, t);
    assert (t + 1) * tileUnits == t * tileUnits + tileUnits;
    if tileUnits % 2 == 0 {
      EvenProduct(n, tileUnits);
    }
    HalfOf(t * tileUnits, n * tileUnits, tileUnits, AxisCenter(Units(n, tileUnits), tileUnits, t));
  }

  lemma HalfOf(low: int, units: int, tileUnits: nat, x: int)
    requires x == (low + (low + tileUnits) - units) / 2 && (tileUnits % 2 == 0 ==> units % 2 == 0)
    ensures 2 * low - units <= 2 * (x - tileUnits / 2) && 2 * (x + tileUnits / 2) <= 2 * (low + tileUnits) - units
  {
  }

  lemma AxisTileOfCenter(n: nat, tileUnits: nat, t: nat)
    requires tileUnits > 0 && t < n
    ensures AxisTile(Units(n, tileUnits), tileUnits, AxisCenter(Units(n, tileUnits), tileUnits, t)) == Some(t)
  {
    AreaGrows(tileUnits, t + 1, n);
    TileIndexSplits(tileUnits, 0, t);
  }

  lemma AxisCenterOfTile(n: nat, tileUnits: nat, x: int)
    requires tileUnits > 0
    ensures var t := AxisTile(Units(n, tileUnits), tileUnits, x);
            t.Some? ==> t.value < n && AxisCenter(Units(n, tileUnits), tileUnits, t.value) == x
  {
    var offset := x + Units(n, tileUnits) / 2 - tileUnits / 2;
    if 0 <= offset {
      InArea(tileUnits, n, offset);
      TileIndexJoins(tileUnits, offset);
    }
  }

  // ----- tiles and centres

  function ToI16(x: int): i16 { if -32768 <= x <= 32767 then x else 32767 }

  /** `tile_center_units`, with its silent fallback to `i16::MAX`. */
  function TileCenterUnits(m: ArenaMap, column: nat, row: nat): Point {
    Point(ToI16(AxisCenter(m.widthUnits, m.tileUnits, column)), ToI16(AxisCenter(m.heightUnits, m.tileUnits, row)))
  }

  /** `map_cell_center`, which refuses instead. */
  function MapCellCenter(widthTiles: nat, heightTiles: nat, tileUnits: nat, column: nat, row: nat)
    : Result<Point, ContentError>
  {
    var x := AxisCenter(Units(widthTiles, tileUnits), tileUnits, column);
    var y := AxisCenter(Units(heightTiles, tileUnits), tileUnits, row);
    if !(-32768 <= x <= 32767) || !(-32768 <= y <= 32767) then Err(CellOverflow(column, row)) else Ok(Point(x, y))
  }

  function TileIndexForCenter(m: ArenaMap, p: Point): Result<nat, ContentError>
    requires m.tileUnits > 0
  {
    var column := AxisTile(m.widthUnits, m.tileUnits, p.x);
    var row := AxisTile(m.heightUnits, m.tileUnits, p.y);
    if column.None? || row.None? then Err(OffTile(p)) else Ok(TileIndex(m.widthTiles, column.value, row.value))
  }

  /** The centre of tile number `k`. */
  function CenterOfTile(m: ArenaMap, k: nat): Point
    requires m.widthTiles > 0
  {
    TileCenterUnits(m, ColumnOf(m.widthTiles, k), RowOf(m.widthTiles, k))
  }

  lemma CentersAgreeAt(m: ArenaMap, column: nat, row: nat)
    requires ValidGeometry(m) && column < m.widthTiles && row < m.heightTiles
    ensures var x, y := AxisCenter(m.widthUnits, m.tileUnits, column), AxisCenter(m.heightUnits, m.tileUnits, row);
            && -32768 <= x <= 32767 && -32768 <= y <= 32767
            && TileCenterUnits(m, column, row) == Point(x, y)
            && MapCellCenter(m.widthTiles, m.heightTiles, m.tileUnits, column, row) == Ok(Point(x, y))
  {
    AxisCenterFits(m.widthTiles, m.tileUnits, column);
    AxisCenterFits(m.heightTiles, m.tileUnits, row);
  }

  lemma RowOfTile(m: ArenaMap, k: nat) returns (row: nat)
    requires m.widthTiles > 0 && k < TileCount(m)
    ensures row == RowOf(m.widthTiles, k) && row < m.heightTiles
  {
    InArea(m.widthTiles, m.heightTiles, k);
    row := RowOf(m.widthTiles, k);
  }

  /** The two ways of computing a centre agree, and neither ever falls back or refuses. */
  lemma CentersAgree(m: ArenaMap, k: nat)
    requires ValidGeometry(m) && k < TileCount(m)
    ensures MapCellCenter(m.widthTiles, m.heightTiles, m.tileUnits, ColumnOf(m.widthTiles, k), RowOf(m.widthTiles, k))
         == Ok(CenterOfTile(m, k))
    ensures CenterOfTile(m, k).x == AxisCenter(m.widthUnits, m.tileUnits, ColumnOf(m.widthTiles, k))
    ensures CenterOfTile(m, k).y == AxisCenter(m.heightUnits, m.tileUnits, RowOf(m.widthTiles, k))
  {
    var row := RowOfTile(m, k);
    CentersAgreeAt(m, ColumnOf(m.widthTiles, k), row);
  }

  /** `MapCellCenter` and `TileCenterUnits` both give the middle of the tile, in units about the middle of the map. */
  lemma CellCenterIsMiddle(m: ArenaMap, column: nat, row: nat)
    requires ValidGeometry(m) && column < m.widthTiles && row < m.heightTiles
    ensures var x := TileMiddle(m.widthTiles, m.tileUnits, column);
            var y := TileMiddle(m.heightTiles, m.tileUnits, row);
            && -32768 <= x <= 32767 && -32768 <= y <= 32767
            && TileCenterUnits(m, column, row) == Point(x, y)
            && MapCellCenter(m.widthTiles, m.heightTiles, m.tileUnits, column, row) == Ok(Point(x, y))
  {
    hide AxisCenter, TileMiddle;
    CentersAgreeAt(m, column, row);
    AxisCenterIsMiddle(m.widthTiles, m.tileUnits, column);
    AxisCenterIsMiddle(m.heightTiles, m.tileUnits, row);
  }

  lemma TileOfCenterAt(m: ArenaMap, column: nat, row: nat)
    requires ValidGeometry(m) && column < m.widthTiles && row < m.heightTiles
    ensures TileIndexForCenter(m, TileCenterUnits(m, column, row)) == Ok(TileIndex(m.widthTiles, column, row))
  {
    CentersAgreeAt(m, column, row);
    AxisTileOfCenter(m.widthTiles, m.tileUnits, column);
    AxisTileOfCenter(m.heightTiles, m.tileUnits, row);
  }

  lemma TileOfCenter(m: ArenaMap, k: nat)
    requires ValidGeometry(m) && k < TileCount(m)
    ensures TileIndexForCenter(m, CenterOfTile(m, k)) == Ok(k)
  {
    var row := RowOfTile(m, k);
    TileOfCenterAt(m, ColumnOf(m.widthTiles, k), row);
    TileIndexJoins(m.widthTiles, k);
  }

  lemma AcceptedPointIsCenter(m: ArenaMap, p: Point)
    requires ValidGeometry(m)
    ensures var r := TileIndexForCenter(m, p);
            r.Ok? ==> r.value < TileCount(m) && CenterOfTile(m, r.value) == p
  {
    AxisCenterOfTile(m.widthTiles, m.tileUnits, p.x);
    AxisCenterOfTile(m.heightTiles, m.tileUnits, p.y);
    if TileIndexForCenter(m, p).Ok? {
      var column := AxisTile(m.widthUnits, m.tileUnits, p.x).value;
      var row := AxisTile(m.heightUnits, m.tileUnits, p.y).value;
      TileIndexSplits(m.widthTiles, column, row);
      InArea(m.widthTiles, m.heightTiles, TileIndex(m.widthTiles, column, row));
    }
  }

  /** A point is accepted exactly when it is the centre of the tile returned. */
  lemma CenterOfIndex(m: ArenaMap, p: Point, k: nat)
    requires ValidGeometry(m)
    ensures TileIndexForCenter(m, p) == Ok(k) <==> k < TileCount(m) && CenterOfTile(m, k) == p
  {
    AcceptedPointIsCenter(m, p);
    if k < TileCount(m) {
      TileOfCenter(m, k);
    }
  }

  /** Different tiles have different centres. */
  lemma CentersAreDistinct(m: ArenaMap, j: nat, k: nat)
    requires ValidGeometry(m) && j < TileCount(m) && k < TileCount(m) && CenterOfTile(m, j) == CenterOfTile(m, k)
    ensures j == k
  {
    TileOfCenter(m, j);
    TileOfCenter(m, k);
  }
}
