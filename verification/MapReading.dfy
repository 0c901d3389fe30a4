/** What a scan of glyph rows means: masks as tile sets, anchors, obstacles and features in row-major order. */
module MapReading {
  import opened ArenaMap
  import opened Masks
  import opened MapParser
  import opened Prelude
  import opened Tiles

  /** `m` has the shape of these rows. */
  ghost predicate Frames(m: ArenaMap, rows: seq<string>) {
    ValidGeometry(m) && m.heightTiles == |rows|
  }

  /** The glyph of a tile of the board, and a blank elsewhere. */
  function Glyph(m: ArenaMap, rows: seq<string>, k: nat): char {
    if m.widthTiles > 0 && RowOf(m.widthTiles, k) < |rows| then GlyphAt(rows, m.widthTiles, k) else ' '
  }

  ghost predicate Supported(m: ArenaMap, rows: seq<string>, n: nat) {
    forall k :: 0 <= k < n ==> IsGlyph(Glyph(m, rows, k))
  }

  /** Centres of the first `n` tiles drawn as `glyph`, in row-major order. */
  function PointsOf(m: ArenaMap, rows: seq<string>, glyph: char, n: nat): seq<Point>
    requires m.widthTiles > 0
  {
    if n == 0 then [] else
      PointsOf(m, rows, glyph, n - 1) + if Glyph(m, rows, n - 1) == glyph then [CenterOfTile(m, n - 1)] else []
  }

  function ObstacleAt(m: ArenaMap, rows: seq<string>, k: nat): seq<Obstacle>
    requires m.widthTiles > 0
  {
    match Glyph(m, rows, k)
    case '#' => [MapObstacle(Pillar, CenterOfTile(m, k), m.tileUnits)]
    case '+' => [MapObstacle(Shrub, CenterOfTile(m, k), m.tileUnits)]
    case _ => []
  }

  function ObstaclesOf(m: ArenaMap, rows: seq<string>, n: nat): seq<Obstacle>
    requires m.widthTiles > 0
  {
    if n == 0 then [] else ObstaclesOf(m, rows, n - 1) + ObstacleAt(m, rows, n - 1)
  }

  function FeatureAt(m: ArenaMap, rows: seq<string>, k: nat): seq<Feature>
    requires m.widthTiles > 0
  {
    match Glyph(m, rows, k)
    case 'd' => [Feature(TrainingDummyResetFull, CenterOfTile(m, k))]
    case 'D' => [Feature(TrainingDummyExecute, CenterOfTile(m, k))]
    case _ => []
  }

  function FeaturesOf(m: ArenaMap, rows: seq<string>, n: nat): seq<Feature>
    requires m.widthTiles > 0
  {
    if n == 0 then [] else FeaturesOf(m, rows, n - 1) + FeatureAt(m, rows, n - 1)
  }

  /** The lists of a scan are those of its first `n` tiles. */
  ghost predicate ListsRead(m: ArenaMap, rows: seq<string>, n: nat, s: Scan)
    requires m.widthTiles > 0
  {
    && s.teamA == PointsOf(m, rows, 'A', n) && s.teamB == PointsOf(m, rows, 'B', n)
    && s.obstacles == ObstaclesOf(m, rows, n) && s.features == FeaturesOf(m, rows, n)
  }

  /** The masks of a scan hold exactly the drawn tiles, and the objective tiles, among the first `n`. */
  ghost predicate MasksRead(m: ArenaMap, rows: seq<string>, n: nat, s: Scan) {
    && |s.footprint| == |s.objective| == (TileCount(m) + 7) / 8
    && (forall k: nat :: HasTile(s.footprint, k) <==> k < n && Glyph(m, rows, k) != ' ')
    && (forall k: nat :: HasTile(s.objective, k) <==> k < n && Glyph(m, rows, k) == 'X')
  }

  lemma BlankIsEmpty(n: nat, k: nat)
    ensures !HasTile(BlankMapMask(n), k)
  {
    if k / 8 < |BlankMapMask(n)| {
      var bit := Bit(k % 8);
      assert 0 as bv8 & bit == 0;
    }
  }

  /** A tile of the board is scanned at its own centre and sets its own bit. */
  lemma ScanTileIs(m: ArenaMap, rows: seq<string>, s: Scan, k: nat) returns (row: nat, column: nat)
    requires Frames(m, rows) && k < TileCount(m)
    ensures row == RowOf(m.widthTiles, k) < |rows| && column == ColumnOf(m.widthTiles, k)
    ensures TileIndex(m.widthTiles, column, row) == k
    ensures ScanTile(s, rows, m.widthTiles, m.tileUnits, k)
         == ScanGlyph(s, m.widthTiles, row, column, m.tileUnits, CenterOfTile(m, k), Glyph(m, rows, k))
  {
    row := RowOfTile(m, k);
    column := ColumnOf(m.widthTiles, k);
    CentersAgree(m, k);
    TileIndexJoins(m.widthTiles, k);
  }

  lemma GlyphReadsLists(m: ArenaMap, rows: seq<string>, k: nat, s: Scan, row: nat, column: nat)
    requires m.widthTiles > 0 && ListsRead(m, rows, k, s) && IsGlyph(Glyph(m, rows, k))
    ensures var r := ScanGlyph(s, m.widthTiles, row, column, m.tileUnits, CenterOfTile(m, k), Glyph(m, rows, k));
            r.Ok? && ListsRead(m, rows, k + 1, r.value)
  {
    hide CenterOfTile, GlyphAt, SetTile;
  }

  lemma GlyphReadsMasks(m: ArenaMap, rows: seq<string>, k: nat, s: Scan, row: nat, column: nat, center: Point)
    requires k < TileCount(m) && MasksRead(m, rows, k, s) && IsGlyph(Glyph(m, rows, k))
    requires TileIndex(m.widthTiles, column, row) == k
    ensures var r := ScanGlyph(s, m.widthTiles, row, column, m.tileUnits, center, Glyph(m, rows, k));
            r.Ok? && MasksRead(m, rows, k + 1, r.value)
  {
    var r := ScanGlyph(s, m.widthTiles, row, column, m.tileUnits, center, Glyph(m, rows, k)).value;
    forall j: nat
      ensures HasTile(r.footprint, j) <==> j < k + 1 && Glyph(m, rows, j) != ' '
      ensures HasTile(r.objective, j) <==> j < k + 1 && Glyph(m, rows, j) == 'X'
    {
      SetTileAddsOne(s.footprint, k, j);
      SetTileAddsOne(s.objective, k, j);
    }
  }

  lemma StepReads(m: ArenaMap, rows: seq<string>, k: nat, s: Scan)
    requires Frames(m, rows) && k < TileCount(m) && IsGlyph(Glyph(m, rows, k))
    requires ListsRead(m, rows, k, s) && MasksRead(m, rows, k, s)
    ensures RowOf(m.widthTiles, k) < |rows|
    ensures var r := ScanTile(s, rows, m.widthTiles, m.tileUnits, k);
            r.Ok? && ListsRead(m, rows, k + 1, r.value) && MasksRead(m, rows, k + 1, r.value)
  {
    hide ScanGlyph, HasTile, Glyph;
    var row, column := ScanTileIs(m, rows, s, k);
    GlyphReadsLists(m, rows, k, s, row, column);
    GlyphReadsMasks(m, rows, k, s, row, column, CenterOfTile(m, k));
  }

  lemma BlankReads(m: ArenaMap, rows: seq<string>)
    requires m.widthTiles > 0
    ensures ListsRead(m, rows, 0, BlankScan(TileCount(m))) && MasksRead(m, rows, 0, BlankScan(TileCount(m)))
  {
    forall k: nat ensures !HasTile(BlankMapMask(TileCount(m)), k) {
      BlankIsEmpty(TileCount(m), k);
    }
  }

  /** A scan of supported glyphs succeeds, and reads every tile as drawn. */
  lemma {:induction false} ScanReads(m: ArenaMap, rows: seq<string>, n: nat)
    requires Frames(m, rows) && n <= TileCount(m) && Supported(m, rows, n)
    ensures var r := ScanUpTo(rows, m.widthTiles, m.tileUnits, n);
            r.Ok? && ListsRead(m, rows, n, r.value) && MasksRead(m, rows, n, r.value)
  {
    hide ScanTile, HasTile, Glyph;
    if n == 0 {
      BlankReads(m, rows);
    } else {
      ScanReads(m, rows, n - 1);
      StepReads(m, rows, n - 1, ScanUpTo(rows, m.widthTiles, m.tileUnits, n - 1).value);
    }
  }

  lemma UnsupportedTile(m: ArenaMap, rows: seq<string>, s: Scan, k: nat)
    requires Frames(m, rows) && k < TileCount(m) && !IsGlyph(Glyph(m, rows, k))
    ensures RowOf(m.widthTiles, k) < |rows|
    ensures ScanTile(s, rows, m.widthTiles, m.tileUnits, k)
         == Err(UnsupportedGlyph(Glyph(m, rows, k), RowOf(m.widthTiles, k) + 1, ColumnOf(m.widthTiles, k) + 1))
  {
    var row, column := ScanTileIs(m, rows, s, k);
  }

  /** A scan fails exactly on an unsupported glyph, and names the first one by row and column. */
  lemma ScanFailsAtFirst(m: ArenaMap, rows: seq<string>, k: nat, n: nat)
    requires Frames(m, rows) && k < n <= TileCount(m)
    requires Supported(m, rows, k) && !IsGlyph(Glyph(m, rows, k))
    ensures ScanUpTo(rows, m.widthTiles, m.tileUnits, n)
         == Err(UnsupportedGlyph(Glyph(m, rows, k), RowOf(m.widthTiles, k) + 1, ColumnOf(m.widthTiles, k) + 1))
  {
    hide ScanTile, HasTile, Glyph;
    ScanReads(m, rows, k);
    UnsupportedTile(m, rows, ScanUpTo(rows, m.widthTiles, m.tileUnits, k).value, k);
    ScanErrorStays(rows, m.widthTiles, m.tileUnits, k + 1, n);
  }

  lemma {:induction false} FirstUnsupported(m: ArenaMap, rows: seq<string>, n: nat) returns (k: nat)
    requires !Supported(m, rows, n)
    ensures k < n && Supported(m, rows, k) && !IsGlyph(Glyph(m, rows, k))
  {
    if Supported(m, rows, n - 1) {
      k := n - 1;
    } else {
      k := FirstUnsupported(m, rows, n - 1);
    }
  }

  lemma ScanSucceedsIff(m: ArenaMap, rows: seq<string>)
    requires Frames(m, rows)
    ensures ScanUpTo(rows, m.widthTiles, m.tileUnits, TileCount(m)).Ok? <==> Supported(m, rows, TileCount(m))
  {
    if Supported(m, rows, TileCount(m)) {
      ScanReads(m, rows, TileCount(m));
    } else {
      var k := FirstUnsupported(m, rows, TileCount(m));
      ScanFailsAtFirst(m, rows, k, TileCount(m));
    }
  }

  // ----- membership

  lemma {:induction false} PointsOfHolds(m: ArenaMap, rows: seq<string>, glyph: char, n: nat, p: Point)
    requires m.widthTiles > 0
    ensures p in PointsOf(m, rows, glyph, n) <==>
      exists k :: 0 <= k < n && Glyph(m, rows, k) == glyph && CenterOfTile(m, k) == p
  {
    if n > 0 {
      PointsOfHolds(m, rows, glyph, n - 1, p);
    }
  }

  lemma {:induction false} ObstaclesOfHolds(m: ArenaMap, rows: seq<string>, n: nat, o: Obstacle)
    requires m.widthTiles > 0
    ensures o in ObstaclesOf(m, rows, n) <==> exists k :: 0 <= k < n && o in ObstacleAt(m, rows, k)
  {
    if n > 0 {
      ObstaclesOfHolds(m, rows, n - 1, o);
    }
  }

  lemma {:induction false} FeaturesOfHolds(m: ArenaMap, rows: seq<string>, n: nat, f: Feature)
    requires m.widthTiles > 0
    ensures f in FeaturesOf(m, rows, n) <==> exists k :: 0 <= k < n && f in FeatureAt(m, rows, k)
  {
    if n > 0 {
      FeaturesOfHolds(m, rows, n - 1, f);
    }
  }

  /** Scans of equal pictures are equal. */
  lemma {:induction false} ScanCongruent(m: ArenaMap, a: seq<string>, b: seq<string>, n: nat)
    requires Frames(m, a) && Frames(m, b) && n <= TileCount(m)
    requires forall k :: 0 <= k < n ==> Glyph(m, a, k) == Glyph(m, b, k)
    ensures ScanUpTo(a, m.widthTiles, m.tileUnits, n) == ScanUpTo(b, m.widthTiles, m.tileUnits, n)
  {
    hide ScanGlyph;
    if n > 0 {
      ScanCongruent(m, a, b, n - 1);
      var r := ScanUpTo(a, m.widthTiles, m.tileUnits, n - 1);
      if r.Ok? {
        var row, column := ScanTileIs(m, a, r.value, n - 1);
        row, column := ScanTileIs(m, b, r.value, n - 1);
      }
    }
  }
}
