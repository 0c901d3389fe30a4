/** The ASCII map parser: rows, dimensions, then one glyph after another in row-major order. */
module MapParser {
  import opened ArenaMap
  import opened Masks
  import opened Prelude
  import opened Text
  import opened Tiles

  // ----- rows

  function NonEmpty(rows: seq<string>): (kept: seq<string>)
    ensures forall r <- kept :: r in rows && r != []
  {
    if rows == [] then []
    else (if rows[0] != [] then [rows[0]] else []) + NonEmpty(rows[1..])
  }

  function TrimmedRows(rows: seq<string>): (trimmed: seq<string>)
    ensures |trimmed| == |rows| && forall i :: 0 <= i < |rows| ==> trimmed[i] == TrimEnd(rows[i])
  {
    seq(|rows|, i requires 0 <= i < |rows| => TrimEnd(rows[i]))
  }

  function CollectMapRows(text: string): Result<seq<string>, ContentError> {
    var rows := NonEmpty(TrimmedRows(Lines(text)));
    if rows == [] then Err(NoRows) else Ok(rows)
  }

  function WidestRow(rows: seq<string>): (w: nat)
    ensures forall r <- rows :: |r| <= w
    ensures rows != [] ==> exists r <- rows :: |r| == w
  {
    if rows == [] then 0 else
      var w := WidestRow(rows[1..]);
      assert rows == [rows[0]] + rows[1..];
      if |rows[0]| >= w || rows[1..] == [] then assert rows[0] in rows; |rows[0]| else w
  }

  datatype Dimensions = Dimensions(widthTiles: u16, heightTiles: u16, widthUnits: u16, heightUnits: u16)

  function ValidateMapDimensions(rows: seq<string>, tileUnits: u16): Result<Dimensions, ContentError> {
    var width := WidestRow(rows);
    if tileUnits == 0 then Err(ZeroTileUnits)
    else if width == 0 || width > MAX_MAP_DIMENSION_TILES then Err(WidthOutOfRange(width))
    else if |rows| > MAX_MAP_DIMENSION_TILES then Err(HeightOutOfRange(|rows|))
    else if Units(width, tileUnits) > U16_MAX then Err(WidthUnitsOverflow)
    else if Units(|rows|, tileUnits) > U16_MAX then Err(HeightUnitsOverflow)
    else Ok(Dimensions(width, |rows|, Units(width, tileUnits), Units(|rows|, tileUnits)))
  }

  // ----- glyphs

  /** What the scan of the glyphs has collected so far. */
  datatype Scan = Scan(footprint: Mask, objective: Mask, teamA: seq<Point>, teamB: seq<Point>,
                       obstacles: seq<Obstacle>, features: seq<Feature>)

  function BlankMapMask(tileCount: nat): Mask { seq((tileCount + 7) / 8, _ => 0) }

  function BlankScan(tileCount: nat): Scan {
    Scan(BlankMapMask(tileCount), BlankMapMask(tileCount), [], [], [], [])
  }

  function MapObstacle(kind: ObstacleKind, center: Point, tileUnits: nat): Obstacle {
    Obstacle(kind, center, tileUnits / 2, tileUnits / 2)
  }

  predicate IsGlyph(c: char) { c in " .ABX#+dD" }

  /** Everything but a blank stands on the footprint. */
  function ScanGlyph(s: Scan, width: nat, row: nat, column: nat, tileUnits: nat, center: Point, glyph: char)
    : Result<Scan, ContentError>
  {
    if glyph == ' ' then Ok(s) else
      var t := s.(footprint := SetTile(s.footprint, TileIndex(width, column, row)));
      match glyph
      case '.' => Ok(t)
      case 'A' => Ok(t.(teamA := s.teamA + [center]))
      case 'B' => Ok(t.(teamB := s.teamB + [center]))
      case 'X' => Ok(t.(objective := SetTile(s.objective, TileIndex(width, column, row))))
      case '#' => Ok(t.(obstacles := s.obstacles + [MapObstacle(Pillar, center, tileUnits)]))
      case '+' => Ok(t.(obstacles := s.obstacles + [MapObstacle(Shrub, center, tileUnits)]))
      case 'd' => Ok(t.(features := s.features + [Feature(TrainingDummyResetFull, center)]))
      case 'D' => Ok(t.(features := s.features + [Feature(TrainingDummyExecute, center)]))
      case _ => Err(UnsupportedGlyph(glyph, row + 1, column + 1))
  }

  /** The glyph of a tile; a row too short reads as blanks. */
  function GlyphAt(rows: seq<string>, width: nat, k: nat): char
    requires width > 0 && RowOf(width, k) < |rows|
  {
    var row := rows[RowOf(width, k)];
    if ColumnOf(width, k) < |row| then row[ColumnOf(width, k)] else ' '
  }

  function ScanTile(s: Scan, rows: seq<string>, width: nat, tileUnits: nat, k: nat): Result<Scan, ContentError>
    requires width > 0 && RowOf(width, k) < |rows|
  {
    match MapCellCenter(width, |rows|, tileUnits, ColumnOf(width, k), RowOf(width, k))
    case Err(e) => Err(e)
    case Ok(center) => ScanGlyph(s, width, RowOf(width, k), ColumnOf(width, k), tileUnits, center,
      GlyphAt(rows, width, k))
  }

  /** One more tile, unless the scan has already failed. */
  function ScanAfter(before: Result<Scan, ContentError>, rows: seq<string>, width: nat, tileUnits: nat, k: nat)
    : Result<Scan, ContentError>
    requires width > 0 && RowOf(width, k) < |rows|
  {
    match before
    case Err(e) => Err(e)
    case Ok(s) => ScanTile(s, rows, width, tileUnits, k)
  }

  /** The scan of the first `n` tiles. */
  function ScanUpTo(rows: seq<string>, width: nat, tileUnits: nat, n: nat): Result<Scan, ContentError>
    requires width > 0 && n <= Area(width, |rows|)
  {
    if n == 0 then Ok(BlankScan(Area(width, |rows|))) else
      InArea(width, |rows|, n - 1);
      ScanAfter(ScanUpTo(rows, width, tileUnits, n - 1), rows, width, tileUnits, n - 1)
  }

  function CheckAnchors(s: Scan): Result<Scan, ContentError> {
    if s.teamA == [] then Err(NoTeamA)
    else if s.teamB == [] then Err(NoTeamB)
    else if |s.teamA| > 3 then Err(TooManyTeamA)
    else if |s.teamB| > 3 then Err(TooManyTeamB)
    else Ok(s)
  }

  function LayoutOf(rows: seq<string>, width: nat, tileUnits: nat): Result<Scan, ContentError>
    requires width > 0
  {
    match ScanUpTo(rows, width, tileUnits, Area(width, |rows|))
    case Err(e) => Err(e)
    case Ok(s) => CheckAnchors(s)
  }

  /** An error stays: a scan that failed early fails with that error. */
  lemma {:induction false} ScanErrorStays(rows: seq<string>, width: nat, tileUnits: nat, k: nat, n: nat)
    requires width > 0 && k <= n <= Area(width, |rows|) && ScanUpTo(rows, width, tileUnits, k).Err?
    ensures ScanUpTo(rows, width, tileUnits, n) == ScanUpTo(rows, width, tileUnits, k)
  {
    if k < n {
      ScanErrorStays(rows, width, tileUnits, k, n - 1);
    }
  }

  /** The six buffers the source's glyph scanner writes to. */
  class LayoutBuilder {
    const footprintMask: array<bv8>
    const objectiveMask: array<bv8>
    var teamAAnchors: seq<Point>
    var teamBAnchors: seq<Point>
    var obstacles: seq<Obstacle>
    var features: seq<Feature>

    ghost predicate Valid() { footprintMask != objectiveMask }

    ghost function Scanned(): Scan
      reads this, footprintMask, objectiveMask
    {
      Scan(footprintMask[..], objectiveMask[..], teamAAnchors, teamBAnchors, obstacles, features)
    }

    constructor (tileCount: nat)
      ensures Valid() && fresh(footprintMask) && fresh(objectiveMask)
      ensures Scanned() == BlankScan(tileCount)
    {
      footprintMask := new bv8[(tileCount + 7) / 8](_ => 0);
      objectiveMask := new bv8[(tileCount + 7) / 8](_ => 0);
      teamAAnchors, teamBAnchors, obstacles, features := [], [], [], [];
      new;
      assert footprintMask[..] == BlankMapMask(tileCount);
      assert objectiveMask[..] == BlankMapMask(tileCount);
    }

    method ParseMapGlyph(glyph: char, row: nat, column: nat, width: nat, tileUnits: nat, center: Point)
      returns (error: Option<ContentError>)
      requires Valid()
      modifies this, footprintMask, objectiveMask
      ensures match ScanGlyph(old(Scanned()), width, row, column, tileUnits, center, glyph)
              case Ok(s) => error == None && Scanned() == s
              case Err(e) => error == Some(e) && Scanned() == old(Scanned())
    {
      error := None;
      if glyph !in " .ABX#+dD" {
        return Some(UnsupportedGlyph(glyph, row + 1, column + 1));
      }
      if glyph != ' ' {
        SetMapMaskBit(footprintMask, width, row, column);
      }
      match glyph {
        case 'A' => teamAAnchors := teamAAnchors + [center];
        case 'B' => teamBAnchors := teamBAnchors + [center];
        case 'X' => SetMapMaskBit(objectiveMask, width, row, column);
        case '#' => obstacles := obstacles + [MapObstacle(Pillar, center, tileUnits)];
        case '+' => obstacles := obstacles + [MapObstacle(Shrub, center, tileUnits)];
        case 'd' => features := features + [Feature(TrainingDummyResetFull, center)];
        case 'D' => features := features + [Feature(TrainingDummyExecute, center)];
        case _ =>
      }
    }

    /** One round of the inner loop: the centre first, then the glyph. */
    method ParseCell(rows: seq<string>, width: nat, tileUnits: nat, row: nat, column: nat)
      returns (error: Option<ContentError>)
      requires Valid() && row < |rows| && column < width
      requires RowOf(width, TileIndex(width, column, row)) < |rows|
      modifies this, footprintMask, objectiveMask
      ensures match ScanTile(old(Scanned()), rows, width, tileUnits, TileIndex(width, column, row))
              case Ok(s) => error == None && Scanned() == s
              case Err(e) => error == Some(e)
    {
      TileIndexSplits(width, column, row);
      var glyph := if column < |rows[row]| then rows[row][column] else ' ';
      var center := MapCellCenter(width, |rows|, tileUnits, column, row);
      if center.Err? {
        return Some(center.error);
      }
      error := ParseMapGlyph(glyph, row, column, width, tileUnits, center.value);
    }
  }

  lemma ScanNext(rows: seq<string>, width: nat, tileUnits: nat, column: nat, row: nat)
    requires column < width && row < |rows|
    ensures var k := TileIndex(width, column, row);
            && k < Area(width, |rows|) && RowOf(width, k) < |rows|
            && ScanUpTo(rows, width, tileUnits, k + 1)
            == ScanAfter(ScanUpTo(rows, width, tileUnits, k), rows, width, tileUnits, k)
    ensures var k := TileIndex(width, column, row);
            var next := ScanUpTo(rows, width, tileUnits, k + 1);
            next.Err? ==> LayoutOf(rows, width, tileUnits) == next
  {
    TileIndexSplits(width, column, row);
    InArea(width, |rows|, TileIndex(width, column, row));
    var k := TileIndex(width, column, row);
    if ScanUpTo(rows, width, tileUnits, k + 1).Err? {
      ScanErrorStays(rows, width, tileUnits, k + 1, Area(width, |rows|));
    }
  }

  /** The first `row` rows have been scanned without an error. */
  ghost predicate ScannedRows(builder: LayoutBuilder, rows: seq<string>, width: nat, tileUnits: nat, row: nat)
    requires width > 0
    reads builder, builder.footprintMask, builder.objectiveMask
  {
    row <= |rows| && Area(width, row) <= Area(width, |rows|)
    && ScanUpTo(rows, width, tileUnits, Area(width, row)) == Ok(builder.Scanned())
  }

  /** The inner loop: one row, after all the rows above it. */
  method ParseRow(builder: LayoutBuilder, rows: seq<string>, width: nat, tileUnits: nat, row: nat)
    returns (error: Option<ContentError>)
    requires width > 0 && row < |rows| && builder.Valid()
    requires ScannedRows(builder, rows, width, tileUnits, row)
    modifies builder, builder.footprintMask, builder.objectiveMask
    ensures match error
            case None => ScannedRows(builder, rows, width, tileUnits, row + 1)
            case Some(e) => LayoutOf(rows, width, tileUnits) == Err(e)
  {
    hide ScanTile;
    AreaGrows(width, row + 1, |rows|);
    for column := 0 to width
      invariant ScanUpTo(rows, width, tileUnits, Area(width, row) + column) == Ok(builder.Scanned())
    {
      ScanNext(rows, width, tileUnits, column, row);
      error := builder.ParseCell(rows, width, tileUnits, row, column);
      if error.Some? {
        return;
      }
    }
    error := None;
  }

  /** The outer loop. */
  method ParseRows(builder: LayoutBuilder, rows: seq<string>, width: nat, tileUnits: nat)
    returns (error: Option<ContentError>)
    requires width > 0 && builder.Valid() && builder.Scanned() == BlankScan(Area(width, |rows|))
    modifies builder, builder.footprintMask, builder.objectiveMask
    ensures match error
            case None => ScanUpTo(rows, width, tileUnits, Area(width, |rows|)) == Ok(builder.Scanned())
            case Some(e) => LayoutOf(rows, width, tileUnits) == Err(e)
  {
    for row := 0 to |rows|
      invariant ScannedRows(builder, rows, width, tileUnits, row)
    {
      error := ParseRow(builder, rows, width, tileUnits, row);
      if error.Some? {
        return;
      }
    }
    error := None;
  }

  /** The nested glyph loops of the source compute `LayoutOf`. */
  method ParseMapLayout(rows: seq<string>, width: nat, tileUnits: nat) returns (r: Result<Scan, ContentError>)
    requires width > 0
    ensures r == LayoutOf(rows, width, tileUnits)
  {
    var builder := new LayoutBuilder(Area(width, |rows|));
    var error := ParseRows(builder, rows, width, tileUnits);
    if error.Some? {
      return Err(error.value);
    }
    r := CheckAnchors(Scan(builder.footprintMask[..], builder.objectiveMask[..], builder.teamAAnchors,
                           builder.teamBAnchors, builder.obstacles, builder.features));
  }

  // ----- the whole parser

  function MapOfScan(mapId: string, d: Dimensions, tileUnits: u16, s: Scan): ArenaMap {
    ArenaMap(mapId, d.widthTiles, d.heightTiles, tileUnits, d.widthUnits, d.heightUnits, 0,
             s.footprint, s.objective, s.teamA, s.teamB, s.obstacles, s.features)
  }

  /** What the parser makes of rows already collected. */
  function ParsedRows(mapId: string, rows: seq<string>, tileUnits: u16): Result<ArenaMap, ContentError> {
    match ValidateMapDimensions(rows, tileUnits)
    case Err(e) => Err(e)
    case Ok(d) =>
      match LayoutOf(rows, d.widthTiles, tileUnits)
      case Err(e) => Err(e)
      case Ok(s) => Ok(MapOfScan(mapId, d, tileUnits, s))
  }

  /** What `parse_ascii_map` returns. */
  function ParsedMap(mapId: string, text: string, tileUnits: u16): Result<ArenaMap, ContentError> {
    match CollectMapRows(text)
    case Err(e) => Err(e)
    case Ok(rows) => ParsedRows(mapId, rows, tileUnits)
  }

  method ParseAsciiMap(mapId: string, text: string, tileUnits: u16) returns (r: Result<ArenaMap, ContentError>)
    ensures r == ParsedMap(mapId, text, tileUnits)
  {
    var rows := CollectMapRows(text);
    if rows.Err? { return Err(rows.error); }
    var d := ValidateMapDimensions(rows.value, tileUnits);
    if d.Err? { return Err(d.error); }
    var s := ParseMapLayout(rows.value, d.value.widthTiles, tileUnits);
    if s.Err? { return Err(s.error); }
    r := Ok(MapOfScan(mapId, d.value, tileUnits, s.value));
  }
}
