/** Rendering and parsing undo each other on every drawn map. */
module MapRoundTrip {
  import opened ArenaMap
  import opened Masks
  import opened MapParser
  import opened MapReading
  import opened MapRenderer
  import opened Prelude
  import opened Text
  import opened Tiles

  ghost predicate HasInk(row: string) { exists c <- row :: c != ' ' }

  /** Full-width rows of supported glyphs; no row is blank and the last column is used. */
  ghost predicate Canonical(rows: seq<string>, width: nat) {
    && 0 < |rows| <= MAX_MAP_DIMENSION_TILES && 0 < width <= MAX_MAP_DIMENSION_TILES
    && Rectangle(rows, width, |rows|)
    && (forall i, j :: 0 <= i < |rows| && 0 <= j < width ==> IsGlyph(rows[i][j]))
    && (forall i :: 0 <= i < |rows| ==> HasInk(rows[i]))
    && (exists i :: 0 <= i < |rows| && rows[i][width - 1] != ' ')
  }

  ghost function ScanOf(m: ArenaMap): Scan {
    Scan(m.footprintMask, m.objectiveMask, m.teamAAnchors, m.teamBAnchors, m.obstacles, m.features)
  }

  /** `m` is the map these rows draw; its id and objective time are not drawn. */
  ghost predicate Draws(m: ArenaMap, rows: seq<string>) {
    && Frames(m, rows) && Canonical(rows, m.widthTiles)
    && LayoutOf(rows, m.widthTiles, m.tileUnits) == Ok(ScanOf(m))
  }

  // ----- parsing canonical rows

  lemma TrimKeepsGlyphs(row: string, j: nat)
    requires j < |row| && forall i :: 0 <= i < |row| ==> IsGlyph(row[i])
    ensures if j < |TrimEnd(row)| then TrimEnd(row)[j] == row[j] else row[j] == ' '
  {
    var t := TrimEnd(row);
    if j >= |t| {
      assert IsWhitespace(row[j]) && IsGlyph(row[j]);
    }
  }

  lemma TrimKeepsInk(row: string)
    requires HasInk(row) && forall i :: 0 <= i < |row| ==> IsGlyph(row[i])
    ensures TrimEnd(row) != []
  {
    var c :| c in row && c != ' ';
    var j :| 0 <= j < |row| && row[j] == c;
    TrimKeepsGlyphs(row, j);
  }

  lemma GlyphRowsAreClean(rows: seq<string>, width: nat)
    requires Canonical(rows, width)
    ensures forall r <- rows :: CleanLine(r)
  {
    forall r | r in rows ensures CleanLine(r) {
      var i :| 0 <= i < |rows| && rows[i] == r;
      assert forall j :: 0 <= j < |r| ==> IsGlyph(rows[i][j]);
    }
  }

  lemma {:induction false} NonEmptyKeepsAll(rows: seq<string>)
    requires forall i :: 0 <= i < |rows| ==> rows[i] != []
    ensures NonEmpty(rows) == rows
  {
    if rows != [] {
      NonEmptyKeepsAll(rows[1..]);
      assert rows == [rows[0]] + rows[1..];
    }
  }

  lemma CollectsCanonical(rows: seq<string>, width: nat)
    requires Canonical(rows, width)
    ensures CollectMapRows(Join(rows, '\n')) == Ok(TrimmedRows(rows))
  {
    GlyphRowsAreClean(rows, width);
    assert rows[|rows| - 1] != [];
    LinesOfJoin(rows);
    forall i | 0 <= i < |rows| ensures TrimmedRows(rows)[i] != [] {
      TrimKeepsInk(rows[i]);
    }
    NonEmptyKeepsAll(TrimmedRows(rows));
  }

  lemma TrimmedWidth(rows: seq<string>, width: nat)
    requires Canonical(rows, width)
    ensures WidestRow(TrimmedRows(rows)) == width
  {
    var trimmed := TrimmedRows(rows);
    var i :| 0 <= i < |rows| && rows[i][width - 1] != ' ';
    TrimKeepsGlyphs(rows[i], width - 1);
    assert trimmed[i] in trimmed;
    forall r | r in trimmed ensures |r| <= width {
      var k :| 0 <= k < |trimmed| && trimmed[k] == r;
    }
  }

  lemma TrimmedGlyph(m: ArenaMap, rows: seq<string>, k: nat)
    requires Frames(m, rows) && Canonical(rows, m.widthTiles) && k < TileCount(m)
    ensures Glyph(m, TrimmedRows(rows), k) == Glyph(m, rows, k)
  {
    var row := RowOfTile(m, k);
    TrimKeepsGlyphs(rows[row], ColumnOf(m.widthTiles, k));
  }

  lemma TrimmedLayout(m: ArenaMap, rows: seq<string>)
    requires Frames(m, rows) && Canonical(rows, m.widthTiles)
    ensures LayoutOf(TrimmedRows(rows), m.widthTiles, m.tileUnits) == LayoutOf(rows, m.widthTiles, m.tileUnits)
  {
    forall k | 0 <= k < TileCount(m) ensures Glyph(m, TrimmedRows(rows), k) == Glyph(m, rows, k) {
      TrimmedGlyph(m, rows, k);
    }
    ScanCongruent(m, TrimmedRows(rows), rows, TileCount(m));
  }

  lemma ParseOfTrimmed(m: ArenaMap, rows: seq<string>, mapId: string)
    requires Draws(m, rows)
    ensures ParsedRows(mapId, TrimmedRows(rows), m.tileUnits) == Ok(m.(mapId := mapId, objectiveTargetMs := 0))
  {
    hide LayoutOf, Units, WidestRow, IsGlyph, HasInk;
    TrimmedWidth(rows, m.widthTiles);
    TrimmedLayout(m, rows);
  }

  /** Parsing the rows of a drawn map gives the map. */
  lemma ParseOfRows(m: ArenaMap, rows: seq<string>, mapId: string)
    requires Draws(m, rows)
    ensures ParsedMap(mapId, Join(rows, '\n'), m.tileUnits) == Ok(m.(mapId := mapId, objectiveTargetMs := 0))
  {
    hide ParsedRows, Canonical, CollectMapRows;
    CollectsCanonical(rows, m.widthTiles);
    ParseOfTrimmed(m, rows, mapId);
  }

  // ----- rendering drawn maps

  /** Every stroke lands on a tile and writes the glyph drawn there. */
  ghost predicate Consistent(m: ArenaMap, rows: seq<string>, strokes: seq<Stroke>)
    requires m.tileUnits > 0
  {
    forall i :: 0 <= i < |strokes| ==>
      var r := TileOfStroke(m, strokes[i]);
      r.Ok? && r.value < TileCount(m) && Glyph(m, rows, r.value) == strokes[i].glyph
  }

  ghost predicate Hits(m: ArenaMap, strokes: seq<Stroke>, k: nat)
    requires m.tileUnits > 0
  {
    exists i :: 0 <= i < |strokes| && TileOfStroke(m, strokes[i]) == Ok(k)
  }

  /** Painting true strokes keeps what is true and makes true what it hits. */
  lemma {:induction false} PaintConsistent(m: ArenaMap, rows: seq<string>, before: seq<string>, strokes: seq<Stroke>,
                                           k: nat)
    requires Frames(m, rows) && Rectangle(before, m.widthTiles, m.heightTiles) && k < TileCount(m)
    requires Consistent(m, rows, strokes)
    ensures var r := PaintAll(m, before, strokes);
            && r.Ok?
            && (Hits(m, strokes, k) || Glyph(m, before, k) == Glyph(m, rows, k) ==>
              Glyph(m, r.value, k) == Glyph(m, rows, k))
            && (Hits(m, strokes, k) || Glyph(m, r.value, k) == Glyph(m, before, k))
  {
    if strokes != [] {
      var n := |strokes| - 1;
      PaintConsistent(m, rows, before, strokes[..n], k);
      var painted := PaintAll(m, before, strokes[..n]).value;
      var tile := TileOfStroke(m, strokes[n]).value;
      var row := RowOfTile(m, tile);
      var kRow := RowOfTile(m, k);
      PaintAtGlyph(painted, m.widthTiles, tile, strokes[n].glyph, k);
      assert tile == k || (Hits(m, strokes, k) ==> Hits(m, strokes[..n], k)) by {
        if tile != k && Hits(m, strokes, k) {
          var i :| 0 <= i < |strokes| && TileOfStroke(m, strokes[i]) == Ok(k);
          assert strokes[..n][i] == strokes[i];
        }
      }
    }
  }

  lemma BaseGlyph(m: ArenaMap, k: nat)
    requires ValidGeometry(m) && k < TileCount(m)
    ensures Glyph(m, BaseRows(m), k) == if HasTile(m.footprintMask, k) then '.' else ' '
  {
    var row := RowOfTile(m, k);
    TileIndexJoins(m.widthTiles, k);
  }

  lemma DrawnLists(m: ArenaMap, rows: seq<string>)
    requires Draws(m, rows)
    ensures Supported(m, rows, TileCount(m))
    ensures ListsRead(m, rows, TileCount(m), ScanOf(m)) && MasksRead(m, rows, TileCount(m), ScanOf(m))
  {
    forall k | 0 <= k < TileCount(m) ensures IsGlyph(Glyph(m, rows, k)) {
      var row := RowOfTile(m, k);
    }
    ScanReads(m, rows, TileCount(m));
  }

  lemma AnchorsConsistent(m: ArenaMap, rows: seq<string>, glyph: char, ps: seq<Point>)
    requires Frames(m, rows) && ps == PointsOf(m, rows, glyph, TileCount(m))
    ensures Consistent(m, rows, AnchorStrokes(ps, glyph))
    ensures forall k: nat :: k < TileCount(m) && Glyph(m, rows, k) == glyph ==> Hits(m, AnchorStrokes(ps, glyph), k)
  {
    hide GlyphAt, TileIndexForCenter, CenterOfTile;
    var strokes := AnchorStrokes(ps, glyph);
    forall i | 0 <= i < |ps|
      ensures var r := TileOfStroke(m, strokes[i]);
              r.Ok? && r.value < TileCount(m) && Glyph(m, rows, r.value) == glyph
    {
      PointsOfHolds(m, rows, glyph, TileCount(m), ps[i]);
      var k :| 0 <= k < TileCount(m) && Glyph(m, rows, k) == glyph && CenterOfTile(m, k) == ps[i];
      TileOfCenter(m, k);
    }
    forall k: nat | k < TileCount(m) && Glyph(m, rows, k) == glyph ensures Hits(m, strokes, k) {
      PointsOfHolds(m, rows, glyph, TileCount(m), CenterOfTile(m, k));
      var i :| 0 <= i < |ps| && ps[i] == CenterOfTile(m, k);
      TileOfCenter(m, k);
      assert TileOfStroke(m, strokes[i]) == Ok(k);
    }
  }

  lemma ObstaclesConsistent(m: ArenaMap, rows: seq<string>, os: seq<Obstacle>)
    requires Frames(m, rows) && os == ObstaclesOf(m, rows, TileCount(m))
    ensures Consistent(m, rows, ObstacleStrokes(os))
    ensures forall k: nat :: k < TileCount(m) && Glyph(m, rows, k) in "#+" ==> Hits(m, ObstacleStrokes(os), k)
  {
    hide GlyphAt, TileIndexForCenter, CenterOfTile;
    var strokes := ObstacleStrokes(os);
    forall i | 0 <= i < |os|
      ensures var r := TileOfStroke(m, strokes[i]);
              r.Ok? && r.value < TileCount(m) && Glyph(m, rows, r.value) == strokes[i].glyph
    {
      ObstaclesOfHolds(m, rows, TileCount(m), os[i]);
      var k :| 0 <= k < TileCount(m) && os[i] in ObstacleAt(m, rows, k);
      TileOfCenter(m, k);
    }
    forall k: nat | k < TileCount(m) && Glyph(m, rows, k) in "#+" ensures Hits(m, strokes, k) {
      var o := ObstacleAt(m, rows, k)[0];
      ObstaclesOfHolds(m, rows, TileCount(m), o);
      var i :| 0 <= i < |os| && os[i] == o;
      TileOfCenter(m, k);
      assert TileOfStroke(m, strokes[i]) == Ok(k);
    }
  }

  lemma FeaturesConsistent(m: ArenaMap, rows: seq<string>, fs: seq<Feature>)
    requires Frames(m, rows) && fs == FeaturesOf(m, rows, TileCount(m))
    ensures Consistent(m, rows, FeatureStrokes(fs))
    ensures forall k: nat :: k < TileCount(m) && Glyph(m, rows, k) in "dD" ==> Hits(m, FeatureStrokes(fs), k)
  {
    hide GlyphAt, TileIndexForCenter, CenterOfTile;
    var strokes := FeatureStrokes(fs);
    forall i | 0 <= i < |fs|
      ensures var r := TileOfStroke(m, strokes[i]);
              r.Ok? && r.value < TileCount(m) && Glyph(m, rows, r.value) == strokes[i].glyph
    {
      FeaturesOfHolds(m, rows, TileCount(m), fs[i]);
      var k :| 0 <= k < TileCount(m) && fs[i] in FeatureAt(m, rows, k);
      TileOfCenter(m, k);
    }
    forall k: nat | k < TileCount(m) && Glyph(m, rows, k) in "dD" ensures Hits(m, strokes, k) {
      var f := FeatureAt(m, rows, k)[0];
      FeaturesOfHolds(m, rows, TileCount(m), f);
      var i :| 0 <= i < |fs| && fs[i] == f;
      TileOfCenter(m, k);
      assert TileOfStroke(m, strokes[i]) == Ok(k);
    }
  }

  lemma ObjectivesConsistent(m: ArenaMap, rows: seq<string>)
    requires Frames(m, rows) && MasksRead(m, rows, TileCount(m), ScanOf(m))
    ensures var strokes := TileStrokes(ObjectiveIndices(m.objectiveMask, TileCount(m)), 'X');
            && Consistent(m, rows, strokes)
            && forall k: nat :: k < TileCount(m) && Glyph(m, rows, k) == 'X' ==> Hits(m, strokes, k)
  {
    var ts := ObjectiveIndices(m.objectiveMask, TileCount(m));
    var strokes := TileStrokes(ts, 'X');
    forall i | 0 <= i < |ts| ensures HasTile(m.objectiveMask, ts[i]) {
      assert ts[i] in ts;
    }
    forall k: nat | k < TileCount(m) && Glyph(m, rows, k) == 'X' ensures Hits(m, strokes, k) {
      assert HasTile(m.objectiveMask, k);
      var i :| 0 <= i < |ts| && ts[i] == k;
      assert TileOfStroke(m, strokes[i]) == Ok(k);
    }
  }

  /** One tile through the five overlays: whatever is drawn there ends on top. */
  lemma PictureGlyph(m: ArenaMap, rows: seq<string>, k: nat)
    requires Draws(m, rows) && k < TileCount(m)
    ensures Picture(m).Ok? && Glyph(m, Picture(m).value, k) == Glyph(m, rows, k)
  {
    DrawnLists(m, rows);
    var n := TileCount(m);
    ObstaclesConsistent(m, rows, m.obstacles);
    FeaturesConsistent(m, rows, m.features);
    ObjectivesConsistent(m, rows);
    AnchorsConsistent(m, rows, 'A', m.teamAAnchors);
    AnchorsConsistent(m, rows, 'B', m.teamBAnchors);
    BaseGlyph(m, k);
    PaintConsistent(m, rows, BaseRows(m), ObstacleStrokes(m.obstacles), k);
    var p1 := PaintAll(m, BaseRows(m), ObstacleStrokes(m.obstacles)).value;
    PaintConsistent(m, rows, p1, FeatureStrokes(m.features), k);
    var p2 := PaintAll(m, p1, FeatureStrokes(m.features)).value;
    PaintConsistent(m, rows, p2, TileStrokes(ObjectiveIndices(m.objectiveMask, n), 'X'), k);
    var p3 := PaintAll(m, p2, TileStrokes(ObjectiveIndices(m.objectiveMask, n), 'X')).value;
    PaintConsistent(m, rows, p3, AnchorStrokes(m.teamAAnchors, 'A'), k);
    var p4 := PaintAll(m, p3, AnchorStrokes(m.teamAAnchors, 'A')).value;
    PaintConsistent(m, rows, p4, AnchorStrokes(m.teamBAnchors, 'B'), k);
    assert IsGlyph(Glyph(m, rows, k));
  }

  lemma PicturesEqual(m: ArenaMap, a: seq<string>, b: seq<string>)
    requires ValidGeometry(m)
    requires Rectangle(a, m.widthTiles, m.heightTiles) && Rectangle(b, m.widthTiles, m.heightTiles)
    requires forall k :: 0 <= k < TileCount(m) ==> Glyph(m, a, k) == Glyph(m, b, k)
    ensures a == b
  {
    forall i, j | 0 <= i < |a| && 0 <= j < m.widthTiles ensures a[i][j] == b[i][j] {
      var k := TileIndex(m.widthTiles, j, i);
      TileIndexSplits(m.widthTiles, j, i);
      InArea(m.widthTiles, m.heightTiles, k);
      assert Glyph(m, a, k) == Glyph(m, b, k);
    }
    forall i | 0 <= i < |a| ensures a[i] == b[i] {
    }
  }

  /** Rendering a drawn map gives its rows. */
  lemma RenderOfDrawn(m: ArenaMap, rows: seq<string>)
    requires Draws(m, rows)
    ensures Rendered(m) == Ok(Join(rows, '\n'))
  {
    InArea(m.widthTiles, m.heightTiles, 0);
    PictureGlyph(m, rows, 0);
    forall k | 0 <= k < TileCount(m) ensures Glyph(m, Picture(m).value, k) == Glyph(m, rows, k) {
      PictureGlyph(m, rows, k);
    }
    PicturesEqual(m, Picture(m).value, rows);
  }

  // ----- accepted maps are drawn

  function Padded(row: string, width: nat): (p: string)
    requires |row| <= width
    ensures |p| == width && row <= p && forall j :: |row| <= j < width ==> p[j] == ' '
  {
    row + seq(width - |row|, _ => ' ')
  }

  function PaddedRows(rows: seq<string>, width: nat): (p: seq<string>)
    requires forall i :: 0 <= i < |rows| ==> |rows[i]| <= width
    ensures Rectangle(p, width, |rows|)
    ensures forall i :: 0 <= i < |rows| ==> p[i] == Padded(rows[i], width)
  {
    seq(|rows|, i requires 0 <= i < |rows| => Padded(rows[i], width))
  }

  /** What the parser keeps as a row ends in something other than white space. */
  lemma {:induction false} KeptRowsEndInInk(rows: seq<string>)
    ensures forall r <- NonEmpty(TrimmedRows(rows)) :: EndsInInk(r)
  {
    forall r | r in NonEmpty(TrimmedRows(rows)) ensures EndsInInk(r) {
      var i :| 0 <= i < |rows| && TrimmedRows(rows)[i] == r;
    }
  }

  ghost predicate EndsInInk(row: string) { row != [] && !IsWhitespace(row[|row| - 1]) }

  lemma PaddedCell(m: ArenaMap, rows: seq<string>, i: nat, j: nat)
    requires Frames(m, rows) && Supported(m, rows, TileCount(m)) && i < |rows| && j < m.widthTiles
    requires |rows[i]| <= m.widthTiles
    ensures IsGlyph(Padded(rows[i], m.widthTiles)[j])
  {
    var k := TileIndex(m.widthTiles, j, i);
    TileIndexSplits(m.widthTiles, j, i);
    InArea(m.widthTiles, m.heightTiles, k);
    assert IsGlyph(Glyph(m, rows, k));
  }

  lemma PaddedInk(row: string, width: nat)
    requires EndsInInk(row) && |row| <= width
    ensures HasInk(Padded(row, width))
    ensures |row| == width ==> Padded(row, width)[width - 1] != ' '
  {
    var p := Padded(row, width);
    assert p[|row| - 1] == row[|row| - 1] && p[|row| - 1] in p;
  }

  ghost predicate PadsToGlyphs(row: string, width: nat) {
    |row| <= width && forall j :: 0 <= j < width ==> IsGlyph(Padded(row, width)[j])
  }

  /** The facts that let a picture be re-read: every accepted row has ink, and so does the last column. */
  lemma PaddedIsCanonical(rows: seq<string>, width: nat)
    requires 0 < |rows| <= MAX_MAP_DIMENSION_TILES && 0 < width <= MAX_MAP_DIMENSION_TILES
    requires forall i :: 0 <= i < |rows| ==> |rows[i]| <= width && PadsToGlyphs(rows[i], width) && EndsInInk(rows[i])
    requires exists i :: 0 <= i < |rows| && |rows[i]| == width
    ensures Canonical(PaddedRows(rows, width), width)
  {
    var p := PaddedRows(rows, width);
    forall i | 0 <= i < |p| ensures HasInk(p[i]) {
      PaddedInk(rows[i], width);
    }
    var i :| 0 <= i < |rows| && |rows[i]| == width;
    PaddedInk(rows[i], width);
    assert p[i][width - 1] != ' ';
  }

  lemma RowsPadToGlyphs(m: ArenaMap, rows: seq<string>, i: nat)
    requires Frames(m, rows) && Supported(m, rows, TileCount(m)) && WidestRow(rows) == m.widthTiles && i < |rows|
    ensures PadsToGlyphs(rows[i], m.widthTiles)
  {
    assert rows[i] in rows;
    forall j | 0 <= j < m.widthTiles ensures IsGlyph(Padded(rows[i], m.widthTiles)[j]) {
      PaddedCell(m, rows, i, j);
    }
  }

  lemma KeptRowsPad(m: ArenaMap, rows: seq<string>)
    requires Frames(m, rows) && Supported(m, rows, TileCount(m)) && WidestRow(rows) == m.widthTiles
    requires forall r <- rows :: EndsInInk(r)
    ensures forall i :: 0 <= i < |rows| ==>
      |rows[i]| <= m.widthTiles && PadsToGlyphs(rows[i], m.widthTiles) && EndsInInk(rows[i])
    ensures exists i :: 0 <= i < |rows| && |rows[i]| == m.widthTiles
  {
    forall i | 0 <= i < |rows|
      ensures |rows[i]| <= m.widthTiles && PadsToGlyphs(rows[i], m.widthTiles) && EndsInInk(rows[i])
    {
      assert rows[i] in rows;
      RowsPadToGlyphs(m, rows, i);
    }
    var widest :| widest in rows && |widest| == m.widthTiles;
    var i :| 0 <= i < |rows| && rows[i] == widest;
  }

  lemma PaddedGlyph(m: ArenaMap, rows: seq<string>, k: nat)
    requires Frames(m, rows) && k < TileCount(m) && forall i :: 0 <= i < |rows| ==> |rows[i]| <= m.widthTiles
    ensures Glyph(m, PaddedRows(rows, m.widthTiles), k) == Glyph(m, rows, k)
  {
    var row := RowOfTile(m, k);
  }

  lemma DimensionsFrame(rows: seq<string>, tileUnits: u16)
    requires rows != []
    ensures var d := ValidateMapDimensions(rows, tileUnits);
            d.Ok? ==>
              && tileUnits > 0 && d.value.widthTiles == WidestRow(rows) > 0 && d.value.heightTiles == |rows|
              && d.value.widthUnits == Units(d.value.widthTiles, tileUnits)
              && d.value.heightUnits == Units(d.value.heightTiles, tileUnits)
              && d.value.widthTiles <= MAX_MAP_DIMENSION_TILES && d.value.heightTiles <= MAX_MAP_DIMENSION_TILES
  {
  }

  /** Every accepted map is drawn by its own rows, padded to the map's width. */
  lemma AcceptedIsDrawn(m: ArenaMap, text: string) returns (rows: seq<string>)
    requires ParsedMap(m.mapId, text, m.tileUnits) == Ok(m)
    ensures Draws(m, rows)
  {
    hide ScanUpTo, HasTile, Glyph;
    var kept := CollectMapRows(text).value;
    DimensionsFrame(kept, m.tileUnits);
    KeptRowsEndInInk(Lines(text));
    ScanSucceedsIff(m, kept);
    KeptRowsPad(m, kept);
    PaddedIsCanonical(kept, m.widthTiles);
    rows := PaddedRows(kept, m.widthTiles);
    forall k | 0 <= k < TileCount(m) ensures Glyph(m, rows, k) == Glyph(m, kept, k) {
      PaddedGlyph(m, kept, k);
    }
    ScanCongruent(m, rows, kept, TileCount(m));
  }

  /** Parsing undoes rendering, for every map the parser accepts. */
  lemma ParseUndoesRender(m: ArenaMap, text: string)
    requires ParsedMap(m.mapId, text, m.tileUnits) == Ok(m)
    ensures ValidGeometry(m) && Rendered(m).Ok?
    ensures ParsedMap(m.mapId, Rendered(m).value, m.tileUnits) == Ok(m)
  {
    var rows := AcceptedIsDrawn(m, text);
    RenderOfDrawn(m, rows);
    ParseOfRows(m, rows, m.mapId);
    assert m.objectiveTargetMs == 0;
  }

  /** A drawn map survives the trip through text, whatever id and objective time it carries. */
  lemma DrawnMapSurvives(m: ArenaMap, rows: seq<string>, mapId: string)
    requires Draws(m, rows)
    ensures Rendered(m).Ok?
    ensures ParsedMap(mapId, Rendered(m).value, m.tileUnits) == Ok(m.(mapId := mapId, objectiveTargetMs := 0))
  {
    RenderOfDrawn(m, rows);
    ParseOfRows(m, rows, mapId);
  }
}
