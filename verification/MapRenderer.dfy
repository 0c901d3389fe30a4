/** The ASCII renderer: footprint dots, then one overlay after another, later ones on top. */
module MapRenderer {
  import opened ArenaMap
  import opened Masks
  import opened MapParser
  import opened Prelude
  import opened Text
  import opened Tiles

  /** One glyph written over the picture, addressed by tile or by world coordinates. */
  datatype Stroke = AtPoint(center: Point, glyph: char) | AtTile(tile: nat, glyph: char)

  function TileOfStroke(m: ArenaMap, s: Stroke): Result<nat, ContentError>
    requires m.tileUnits > 0
  {
    match s
    case AtPoint(center, _) => TileIndexForCenter(m, center)
    case AtTile(tile, _) => Ok(tile)
  }

  function ObstacleGlyph(kind: ObstacleKind): char {
    match kind case Pillar => '#' case Shrub => '+'
  }

  function FeatureGlyph(kind: FeatureKind): char {
    match kind case TrainingDummyResetFull => 'd' case TrainingDummyExecute => 'D'
  }

  function ObstacleStrokes(os: seq<Obstacle>): seq<Stroke> {
    seq(|os|, i requires 0 <= i < |os| => AtPoint(os[i].center, ObstacleGlyph(os[i].kind)))
  }

  function FeatureStrokes(fs: seq<Feature>): seq<Stroke> {
    seq(|fs|, i requires 0 <= i < |fs| => AtPoint(fs[i].center, FeatureGlyph(fs[i].kind)))
  }

  function AnchorStrokes(ps: seq<Point>, glyph: char): seq<Stroke> {
    seq(|ps|, i requires 0 <= i < |ps| => AtPoint(ps[i], glyph))
  }

  function TileStrokes(ts: seq<nat>, glyph: char): seq<Stroke> {
    seq(|ts|, i requires 0 <= i < |ts| => AtTile(ts[i], glyph))
  }

  /** `objective_indices`: the objective tiles below `n`, ascending. */
  function ObjectiveIndices(mask: Mask, n: nat): (ts: seq<nat>)
    ensures forall t: nat :: t in ts <==> t < n && HasTile(mask, t)
    ensures forall i :: 0 <= i < |ts| ==> ts[i] < n
  {
    if n == 0 then [] else
      var before := ObjectiveIndices(mask, n - 1);
      if HasTile(mask, n - 1) then before + [n - 1] else before
  }

  // ----- pictures

  ghost predicate Rectangle(rows: seq<string>, width: nat, height: nat) {
    |rows| == height && forall i :: 0 <= i < |rows| ==> |rows[i]| == width
  }

  function PaintAt(rows: seq<string>, width: nat, k: nat, glyph: char): (painted: seq<string>)
    requires width > 0 && RowOf(width, k) < |rows| && Rectangle(rows, width, |rows|)
    ensures Rectangle(painted, width, |rows|)
  {
    rows[RowOf(width, k) := rows[RowOf(width, k)][ColumnOf(width, k) := glyph]]
  }

  /** Painting a tile changes that tile only. */
  lemma PaintAtGlyph(rows: seq<string>, width: nat, k: nat, glyph: char, j: nat)
    requires width > 0 && RowOf(width, k) < |rows| && RowOf(width, j) < |rows| && Rectangle(rows, width, |rows|)
    ensures GlyphAt(PaintAt(rows, width, k, glyph), width, j) == if j == k then glyph else GlyphAt(rows, width, j)
  {
    TileIndexJoins(width, j);
    TileIndexJoins(width, k);
  }

  function BaseRow(m: ArenaMap, row: nat): (r: string)
    ensures |r| == m.widthTiles
  {
    seq(m.widthTiles, c requires 0 <= c < m.widthTiles =>
      if HasTile(m.footprintMask, TileIndex(m.widthTiles, c, row)) then '.' else ' ')
  }

  function BaseRows(m: ArenaMap): (rows: seq<string>)
    ensures Rectangle(rows, m.widthTiles, m.heightTiles)
  {
    seq(m.heightTiles, r requires 0 <= r < m.heightTiles => BaseRow(m, r))
  }

  /** The strokes painted in order, until one does not land on a tile. */
  function PaintAll(m: ArenaMap, rows: seq<string>, strokes: seq<Stroke>): (r: Result<seq<string>, ContentError>)
    requires ValidGeometry(m) && Rectangle(rows, m.widthTiles, m.heightTiles)
    ensures r.Ok? ==> Rectangle(r.value, m.widthTiles, m.heightTiles)
  {
    if strokes == [] then Ok(rows) else
      match PaintAll(m, rows, strokes[..|strokes| - 1])
      case Err(e) => Err(e)
      case Ok(painted) =>
        var last := strokes[|strokes| - 1];
        match TileOfStroke(m, last)
        case Err(e) => Err(e)
        case Ok(k) => if RowOf(m.widthTiles, k) < |painted| then Ok(PaintAt(painted, m.widthTiles, k, last.glyph))
          else Ok(painted)
  }

  /** One overlay over a picture, unless an earlier overlay has already failed. */
  function Overlay(m: ArenaMap, before: Result<seq<string>, ContentError>, strokes: seq<Stroke>)
    : (r: Result<seq<string>, ContentError>)
    requires ValidGeometry(m) && (before.Ok? ==> Rectangle(before.value, m.widthTiles, m.heightTiles))
    ensures r.Ok? ==> Rectangle(r.value, m.widthTiles, m.heightTiles)
  {
    match before
    case Err(e) => Err(e)
    case Ok(rows) => PaintAll(m, rows, strokes)
  }

  function Picture(m: ArenaMap): (r: Result<seq<string>, ContentError>)
    requires ValidGeometry(m)
    ensures r.Ok? ==> Rectangle(r.value, m.widthTiles, m.heightTiles)
  {
    var withObstacles := Overlay(m, Ok(BaseRows(m)), ObstacleStrokes(m.obstacles));
    var withFeatures := Overlay(m, withObstacles, FeatureStrokes(m.features));
    var withObjectives := Overlay(m, withFeatures, TileStrokes(ObjectiveIndices(m.objectiveMask, TileCount(m)), 'X'));
    var withTeamA := Overlay(m, withObjectives, AnchorStrokes(m.teamAAnchors, 'A'));
    Overlay(m, withTeamA, AnchorStrokes(m.teamBAnchors, 'B'))
  }

  /** What `render_ascii_map` returns. */
  function Rendered(m: ArenaMap): Result<string, ContentError>
    requires ValidGeometry(m)
  {
    match Picture(m)
    case Err(e) => Err(e)
    case Ok(rows) => Ok(Join(rows, '\n'))
  }

  lemma {:induction false} PaintErrorStays(m: ArenaMap, rows: seq<string>, done: seq<Stroke>, rest: seq<Stroke>)
    requires ValidGeometry(m) && Rectangle(rows, m.widthTiles, m.heightTiles) && PaintAll(m, rows, done).Err?
    ensures PaintAll(m, rows, done + rest) == PaintAll(m, rows, done)
  {
    if rest == [] {
      assert done + rest == done;
    } else {
      PaintErrorStays(m, rows, done, rest[..|rest| - 1]);
      assert (done + rest)[..|done + rest| - 1] == done + rest[..|rest| - 1];
    }
  }

  // ----- the method

  /** One overlay loop of the source. */
  method PaintLoop(m: ArenaMap, rows: seq<string>, strokes: seq<Stroke>) returns (r: Result<seq<string>, ContentError>)
    requires ValidGeometry(m) && Rectangle(rows, m.widthTiles, m.heightTiles)
    requires forall i :: 0 <= i < |strokes| && strokes[i].AtTile? ==> strokes[i].tile < TileCount(m)
    ensures r == PaintAll(m, rows, strokes)
  {
    var glyphs := rows;
    for i := 0 to |strokes|
      invariant PaintAll(m, rows, strokes[..i]) == Ok(glyphs)
    {
      assert strokes[..i + 1][..i] == strokes[..i];
      var index := TileOfStroke(m, strokes[i]);
      if index.Err? {
        PaintErrorStays(m, rows, strokes[..i + 1], strokes[i + 1..]);
        assert strokes[..i + 1] + strokes[i + 1..] == strokes;
        return Err(index.error);
      }
      StrokeOnBoard(m, strokes[i], index.value);
      glyphs := PaintAt(glyphs, m.widthTiles, index.value, strokes[i].glyph);
    }
    assert strokes[..|strokes|] == strokes;
    r := Ok(glyphs);
  }

  lemma StrokeOnBoard(m: ArenaMap, s: Stroke, k: nat)
    requires ValidGeometry(m) && (s.AtTile? ==> s.tile < TileCount(m)) && TileOfStroke(m, s) == Ok(k)
    ensures k < TileCount(m) && RowOf(m.widthTiles, k) < m.heightTiles
  {
    if s.AtPoint? {
      CenterOfIndex(m, s.center, k);
    }
    InArea(m.widthTiles, m.heightTiles, k);
  }

  method FootprintRows(m: ArenaMap) returns (glyphs: seq<string>)
    ensures glyphs == BaseRows(m)
  {
    glyphs := [];
    for row := 0 to m.heightTiles
      invariant glyphs == BaseRows(m)[..row]
    {
      var line := [];
      for column := 0 to m.widthTiles
        invariant line == BaseRow(m, row)[..column]
      {
        var index := TileIndex(m.widthTiles, column, row);
        line := line + [if HasTile(m.footprintMask, index) then '.' else ' '];
      }
      assert line == BaseRow(m, row);
      glyphs := glyphs + [line];
    }
  }

  method RenderAsciiMap(m: ArenaMap) returns (r: Result<string, ContentError>)
    requires ValidGeometry(m)
    ensures r == Rendered(m)
  {
    var footprint := FootprintRows(m);
    var rows := PaintLoop(m, footprint, ObstacleStrokes(m.obstacles));
    if rows.Err? { return Err(rows.error); }
    rows := PaintLoop(m, rows.value, FeatureStrokes(m.features));
    if rows.Err? { return Err(rows.error); }
    rows := PaintLoop(m, rows.value, TileStrokes(ObjectiveIndices(m.objectiveMask, TileCount(m)), 'X'));
    if rows.Err? { return Err(rows.error); }
    rows := PaintLoop(m, rows.value, AnchorStrokes(m.teamAAnchors, 'A'));
    if rows.Err? { return Err(rows.error); }
    rows := PaintLoop(m, rows.value, AnchorStrokes(m.teamBAnchors, 'B'));
    if rows.Err? { return Err(rows.error); }
    r := Ok(Join(rows.value, '\n'));
  }
}
