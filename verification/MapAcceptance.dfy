/** Which texts the map parser accepts, and what an accepted map holds, cell by cell and in numbers. */
module MapAcceptance {
  import opened ArenaMap
  import opened Masks
  import opened MapParser
  import opened MapReading
  import opened MapRoundTrip
  import opened Prelude
  import opened Text
  import opened Tiles

  /** The lines of the text without trailing blanks, the blank ones left out. */
  function MapRows(text: string): seq<string> { NonEmpty(TrimmedRows(Lines(text))) }

  lemma {:induction false} NonEmptyJoins(a: seq<string>, b: seq<string>)
    ensures NonEmpty(a + b) == NonEmpty(a) + NonEmpty(b)
    decreases |a|
  {
    if a == [] {
      assert a + b == b;
    } else {
      NonEmptyJoins(a[1..], b);
      assert (a + b)[0] == a[0] && (a + b)[1..] == a[1..] + b;
    }
  }

  lemma NonEmptyOne(row: string)
    ensures NonEmpty([row]) == if row == "" then [] else [row]
  {
  }

  /** Blank rows are left out wherever they stand, and all other rows stay in their order. */
  lemma BlankRowsAreDropped(above: seq<string>, row: string, below: seq<string>)
    ensures NonEmpty(above + [row] + below) == NonEmpty(above) + (if row == "" then [] else [row]) + NonEmpty(below)
  {
    hide NonEmpty;
    NonEmptyJoins(above + [row], below);
    NonEmptyJoins(above, [row]);
    NonEmptyOne(row);
  }

  /** How often the rows draw this glyph. */
  function GlyphCount(rows: seq<string>, glyph: char): nat {
    if rows == [] then 0 else GlyphCount(rows[..|rows| - 1], glyph) + multiset(rows[|rows| - 1])[glyph]
  }

  /** What a row shows in a column; beyond its end, blanks. */
  function Shown(row: string, column: nat): char { if column < |row| then row[column] else ' ' }

  lemma CellGlyph(m: ArenaMap, rows: seq<string>, column: nat, row: nat)
    requires Frames(m, rows) && column < m.widthTiles && row < |rows|
    ensures TileIndex(m.widthTiles, column, row) < TileCount(m)
    ensures Glyph(m, rows, TileIndex(m.widthTiles, column, row)) == Shown(rows[row], column)
  {
    TileIndexSplits(m.widthTiles, column, row);
    InArea(m.widthTiles, m.heightTiles, TileIndex(m.widthTiles, column, row));
  }

  // ----- counting glyphs

  lemma {:induction false} PointsInRow(m: ArenaMap, rows: seq<string>, glyph: char, row: nat, n: nat)
    requires Frames(m, rows) && row < |rows| && n <= m.widthTiles && glyph != ' '
    ensures |PointsOf(m, rows, glyph, Area(m.widthTiles, row) + n)|
         == |PointsOf(m, rows, glyph, Area(m.widthTiles, row))|
            + multiset(rows[row][..if n <= |rows[row]| then n else |rows[row]|])[glyph]
    decreases n
  {
    hide Glyph;
    if n == 0 {
      assert rows[row][..0] == "";
    } else {
      PointsInRow(m, rows, glyph, row, n - 1);
      CellGlyph(m, rows, n - 1, row);
      if n <= |rows[row]| {
        assert rows[row][..n] == rows[row][..n - 1] + [rows[row][n - 1]];
      }
    }
  }

  lemma {:induction false} PointsInRows(m: ArenaMap, rows: seq<string>, glyph: char, n: nat)
    requires Frames(m, rows) && n <= |rows| && glyph != ' ' && forall r <- rows :: |r| <= m.widthTiles
    ensures |PointsOf(m, rows, glyph, Area(m.widthTiles, n))| == GlyphCount(rows[..n], glyph)
  {
    hide Glyph, PointsOf;
    if n == 0 {
      NoPoints(m, rows, glyph);
    } else {
      PointsInRows(m, rows, glyph, n - 1);
      PointsInRow(m, rows, glyph, n - 1, m.widthTiles);
      assert rows[n - 1] in rows && rows[n - 1][..|rows[n - 1]|] == rows[n - 1];
      assert rows[..n][..n - 1] == rows[..n - 1];
    }
  }

  lemma NoPoints(m: ArenaMap, rows: seq<string>, glyph: char)
    requires m.widthTiles > 0
    ensures PointsOf(m, rows, glyph, 0) == []
  {
  }

  lemma GlyphsInRows(m: ArenaMap, rows: seq<string>)
    requires Frames(m, rows) && forall r <- rows :: |r| <= m.widthTiles
    ensures Supported(m, rows, TileCount(m)) <==> forall r <- rows :: forall c <- r :: IsGlyph(c)
  {
    hide IsGlyph;
    if Supported(m, rows, TileCount(m)) {
      forall i, j | 0 <= i < |rows| && 0 <= j < |rows[i]| ensures IsGlyph(rows[i][j]) {
        assert rows[i] in rows;
        CellGlyph(m, rows, j, i);
      }
    }
    if forall r <- rows :: forall c <- r :: IsGlyph(c) {
      forall k | 0 <= k < TileCount(m) ensures IsGlyph(Glyph(m, rows, k)) {
        var row := RowOfTile(m, k);
        assert rows[row] in rows;
        BlankIsGlyph();
      }
    }
  }

  lemma BlankIsGlyph()
    ensures IsGlyph(' ')
  {
  }

  // ----- acceptance

  /** The dimension checks, with the products and limits written out. */
  predicate FitsLimits(rows: seq<string>, tileUnits: nat) {
    && 0 < tileUnits && WidestRow(rows) <= 128 && |rows| <= 128
    && WidestRow(rows) * tileUnits <= 65535 && |rows| * tileUnits <= 65535
  }

  lemma DimensionsAccept(rows: seq<string>, tileUnits: u16)
    requires rows != [] && forall r <- rows :: r != []
    ensures ValidateMapDimensions(rows, tileUnits).Ok? <==> FitsLimits(rows, tileUnits)
  {
    assert rows[0] in rows;
    UnitsAreProduct(WidestRow(rows), tileUnits);
    UnitsAreProduct(|rows|, tileUnits);
  }

  /** A map with the dimensions of these rows. */
  function FrameOf(rows: seq<string>, tileUnits: u16): (m: ArenaMap)
    requires rows != [] && ValidateMapDimensions(rows, tileUnits).Ok?
    ensures Frames(m, rows) && m.widthTiles == WidestRow(rows) && m.tileUnits == tileUnits
  {
    DimensionsFrame(rows, tileUnits);
    MapOfScan("", ValidateMapDimensions(rows, tileUnits).value, tileUnits, BlankScan(0))
  }

  lemma LayoutAccepts(m: ArenaMap, rows: seq<string>)
    requires Frames(m, rows) && m.widthTiles == WidestRow(rows)
    ensures LayoutOf(rows, m.widthTiles, m.tileUnits).Ok?
       <==> && (forall r <- rows :: forall c <- r :: IsGlyph(c))
            && 1 <= GlyphCount(rows, 'A') <= 3 && 1 <= GlyphCount(rows, 'B') <= 3
  {
    hide IsGlyph, ScanUpTo, PointsOf, ObstaclesOf, FeaturesOf, MasksRead, Glyph;
    GlyphsInRows(m, rows);
    ScanSucceedsIff(m, rows);
    if Supported(m, rows, TileCount(m)) {
      ScanReads(m, rows, TileCount(m));
      assert rows[..|rows|] == rows;
      PointsInRows(m, rows, 'A', |rows|);
      PointsInRows(m, rows, 'B', |rows|);
    }
  }

  /**
   A text is accepted exactly when it has rows, the board fits 128 by 128 tiles and 65535 by 65535 units, every
   glyph is one of the nine, and each team has one, two or three anchors.
   */
  lemma ParseAccepts(mapId: string, text: string, tileUnits: u16)
    ensures var rows := MapRows(text);
            (ParsedMap(mapId, text, tileUnits).Ok?
             <==> && rows != [] && FitsLimits(rows, tileUnits)
                  && (forall r <- rows :: forall c <- r :: c in " .ABX#+dD")
                  && 1 <= GlyphCount(rows, 'A') <= 3 && 1 <= GlyphCount(rows, 'B') <= 3)
  {
    hide LayoutOf, MapOfScan, ValidateMapDimensions, GlyphCount, FitsLimits, Lines;
    var rows := MapRows(text);
    if rows != [] {
      DimensionsAccept(rows, tileUnits);
      if ValidateMapDimensions(rows, tileUnits).Ok? {
        DimensionsFrame(rows, tileUnits);
        LayoutAccepts(FrameOf(rows, tileUnits), rows);
      }
    }
  }

  // ----- an accepted map, cell by cell

  /** A centre among the listed points of a glyph tells which tile was drawn. */
  lemma PointTellsGlyph(m: ArenaMap, rows: seq<string>, glyph: char, k: nat)
    requires Frames(m, rows) && k < TileCount(m)
    ensures CenterOfTile(m, k) in PointsOf(m, rows, glyph, TileCount(m)) <==> Glyph(m, rows, k) == glyph
  {
    hide Glyph, CenterOfTile;
    PointsOfHolds(m, rows, glyph, TileCount(m), CenterOfTile(m, k));
    forall j | 0 <= j < TileCount(m) && CenterOfTile(m, j) == CenterOfTile(m, k) ensures j == k {
      CentersAreDistinct(m, j, k);
    }
  }

  lemma ObstacleTellsGlyph(m: ArenaMap, rows: seq<string>, kind: ObstacleKind, k: nat)
    requires Frames(m, rows) && k < TileCount(m)
    ensures Obstacle(kind, CenterOfTile(m, k), m.tileUnits / 2, m.tileUnits / 2) in ObstaclesOf(m, rows, TileCount(m))
       <==> Glyph(m, rows, k) == if kind == Pillar then '#' else '+'
  {
    hide Glyph, CenterOfTile;
    var o := Obstacle(kind, CenterOfTile(m, k), m.tileUnits / 2, m.tileUnits / 2);
    ObstaclesOfHolds(m, rows, TileCount(m), o);
    forall j | 0 <= j < TileCount(m) && CenterOfTile(m, j) == CenterOfTile(m, k) ensures j == k {
      CentersAreDistinct(m, j, k);
    }
    assert o in ObstacleAt(m, rows, k) <==> Glyph(m, rows, k) == if kind == Pillar then '#' else '+' by {
      match kind { case Pillar => case Shrub => }
    }
    forall j | 0 <= j < TileCount(m) && o in ObstacleAt(m, rows, j) ensures j == k {
      assert o.center == CenterOfTile(m, j);
    }
  }

  lemma FeatureTellsGlyph(m: ArenaMap, rows: seq<string>, kind: FeatureKind, k: nat)
    requires Frames(m, rows) && k < TileCount(m)
    ensures Feature(kind, CenterOfTile(m, k)) in FeaturesOf(m, rows, TileCount(m))
       <==> Glyph(m, rows, k) == if kind == TrainingDummyResetFull then 'd' else 'D'
  {
    hide Glyph, CenterOfTile;
    var f := Feature(kind, CenterOfTile(m, k));
    FeaturesOfHolds(m, rows, TileCount(m), f);
    forall j | 0 <= j < TileCount(m) && CenterOfTile(m, j) == CenterOfTile(m, k) ensures j == k {
      CentersAreDistinct(m, j, k);
    }
    assert f in FeatureAt(m, rows, k) <==> Glyph(m, rows, k) == if kind == TrainingDummyResetFull then 'd' else 'D' by {
      match kind { case TrainingDummyResetFull => case TrainingDummyExecute => }
    }
    forall j | 0 <= j < TileCount(m) && f in FeatureAt(m, rows, j) ensures j == k {
      assert f.center == CenterOfTile(m, j);
    }
  }

  /** What the parsed lists and masks say about one tile. */
  ghost predicate TileReads(m: ArenaMap, k: nat, center: Point, glyph: char) {
    && (HasTile(m.footprintMask, k) <==> glyph != ' ')
    && (HasTile(m.objectiveMask, k) <==> glyph == 'X')
    && (center in m.teamAAnchors <==> glyph == 'A')
    && (center in m.teamBAnchors <==> glyph == 'B')
    && (Obstacle(Pillar, center, m.tileUnits / 2, m.tileUnits / 2) in m.obstacles <==> glyph == '#')
    && (Obstacle(Shrub, center, m.tileUnits / 2, m.tileUnits / 2) in m.obstacles <==> glyph == '+')
    && (Feature(TrainingDummyResetFull, center) in m.features <==> glyph == 'd')
    && (Feature(TrainingDummyExecute, center) in m.features <==> glyph == 'D')
  }

  lemma ScannedTileReads(m: ArenaMap, rows: seq<string>, k: nat)
    requires Frames(m, rows) && k < TileCount(m)
    requires ScanUpTo(rows, m.widthTiles, m.tileUnits, TileCount(m)) == Ok(ScanOf(m))
    ensures TileReads(m, k, CenterOfTile(m, k), Glyph(m, rows, k))
  {
    hide ScanUpTo, PointsOf, ObstaclesOf, FeaturesOf, Glyph, CenterOfTile, HasTile;
    ScanSucceedsIff(m, rows);
    ScanReads(m, rows, TileCount(m));
    PointTellsGlyph(m, rows, 'A', k);
    PointTellsGlyph(m, rows, 'B', k);
    ObstacleTellsGlyph(m, rows, Pillar, k);
    ObstacleTellsGlyph(m, rows, Shrub, k);
    FeatureTellsGlyph(m, rows, TrainingDummyResetFull, k);
    FeatureTellsGlyph(m, rows, TrainingDummyExecute, k);
  }

  /** The cell of the rows shows up on its own tile, at the tile's middle. */
  ghost predicate CellReads(m: ArenaMap, rows: seq<string>, column: nat, row: nat)
    requires row < |rows|
  {
    var x, y := TileMiddle(m.widthTiles, m.tileUnits, column), TileMiddle(m.heightTiles, m.tileUnits, row);
    && -32768 <= x <= 32767 && -32768 <= y <= 32767
    && TileReads(m, TileIndex(m.widthTiles, column, row), Point(x, y), Shown(rows[row], column))
  }

  lemma CellOfScan(m: ArenaMap, rows: seq<string>, column: nat, row: nat)
    requires Frames(m, rows) && column < m.widthTiles && row < |rows|
    requires ScanUpTo(rows, m.widthTiles, m.tileUnits, TileCount(m)) == Ok(ScanOf(m))
    ensures CellReads(m, rows, column, row)
  {
    hide ScanUpTo, Glyph, TileReads, TileCenterUnits, TileMiddle;
    CellGlyph(m, rows, column, row);
    ScannedTileReads(m, rows, TileIndex(m.widthTiles, column, row));
    CellCenterIsMiddle(m, column, row);
    TileIndexSplits(m.widthTiles, column, row);
  }

  /** Every cell of an accepted text shows up in the map: on the right tile, at its middle, as what its glyph means. */
  lemma ParsedCellReads(mapId: string, text: string, tileUnits: u16)
    requires ParsedMap(mapId, text, tileUnits).Ok?
    ensures var (m, rows) := (ParsedMap(mapId, text, tileUnits).value, MapRows(text));
            && m.mapId == mapId && m.tileUnits == tileUnits
            && m.widthTiles == WidestRow(rows) && m.heightTiles == |rows|
            && forall column: nat, row: nat :: column < m.widthTiles && row < |rows| ==> CellReads(m, rows, column, row)
  {
    hide ScanUpTo, CellReads, Lines, CheckAnchors, WidestRow;
    var m, rows := ParsedMap(mapId, text, tileUnits).value, MapRows(text);
    DimensionsFrame(rows, tileUnits);
    ParsedScan(mapId, rows, tileUnits);
    forall column: nat, row: nat | column < m.widthTiles && row < |rows| ensures CellReads(m, rows, column, row) {
      CellOfScan(m, rows, column, row);
    }
  }

  lemma ParsedScan(mapId: string, rows: seq<string>, tileUnits: u16)
    requires rows != [] && ParsedRows(mapId, rows, tileUnits).Ok?
    ensures var m := ParsedRows(mapId, rows, tileUnits).value;
            && Frames(m, rows)
            && ScanUpTo(rows, m.widthTiles, m.tileUnits, TileCount(m)) == Ok(ScanOf(m))
  {
    hide ScanUpTo;
    DimensionsFrame(rows, tileUnits);
  }

  // ----- obstacles and their tiles

  /** An obstacle drawn or emitted on a tile covers that tile up to a unit and reaches into no other. */
  lemma ObstacleStaysOnTile(m: ArenaMap, kind: ObstacleKind, column: nat, row: nat)
    requires ValidGeometry(m) && column < m.widthTiles && row < m.heightTiles
    ensures var (o, u) := (MapObstacle(kind, TileCenterUnits(m, column, row), m.tileUnits), m.tileUnits);
            && 2 * (column * u) - m.widthTiles * u <= 2 * (o.center.x - o.halfWidth)
            && 2 * (o.center.x + o.halfWidth) <= 2 * ((column + 1) * u) - m.widthTiles * u
            && 2 * (row * u) - m.heightTiles * u <= 2 * (o.center.y - o.halfHeight)
            && 2 * (o.center.y + o.halfHeight) <= 2 * ((row + 1) * u) - m.heightTiles * u
            && u - 1 <= 2 * o.halfWidth && u - 1 <= 2 * o.halfHeight && o.kind == kind
  {
    hide AxisCenter, Units;
    CentersAgreeAt(m, column, row);
    HalfTileStaysInside(m.widthTiles, m.tileUnits, column);
    HalfTileStaysInside(m.heightTiles, m.tileUnits, row);
  }
}
