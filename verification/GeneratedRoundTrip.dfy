/** Every generated map can be printed and read back. */
module GeneratedRoundTrip {
  import opened ArenaMap
  import opened GeneratedMaps
  import opened MapParser
  import opened MapReading
  import opened MapRenderer
  import opened MapRng
  import opened MapRoundTrip
  import opened Masks
  import opened Mirror
  import opened MirrorAxis
  import opened PathSearch
  import opened Phases
  import opened Placement
  import opened Prelude
  import opened Tiles

  /** The template's glyph with its own obstacle cleared and the new one drawn. */
  function RedrawnGlyph(o: Option<ObstacleKind>, glyph: char): char {
    match o
    case Some(kind) => ObstacleGlyph(kind)
    case None => if glyph == '#' || glyph == '+' then '.' else glyph
  }

  function RedrawnRow(m: ArenaMap, row: string, layout: Layout, r: nat): (s: string)
    requires |row| == m.widthTiles && Area(m.widthTiles, r) + m.widthTiles <= |layout|
    ensures |s| == m.widthTiles
  {
    seq(m.widthTiles, c requires 0 <= c < m.widthTiles => RedrawnGlyph(layout[TileIndex(m.widthTiles, c, r)], row[c]))
  }

  lemma RowsFit(m: ArenaMap, layout: Layout, r: nat)
    requires |layout| == TileCount(m) && r < m.heightTiles
    ensures Area(m.widthTiles, r) + m.widthTiles <= |layout|
  {
    AreaGrows(m.widthTiles, r + 1, m.heightTiles);
  }

  function Redrawn(m: ArenaMap, rows: seq<string>, layout: Layout): (s: seq<string>)
    requires Rectangle(rows, m.widthTiles, m.heightTiles) && |layout| == TileCount(m)
    ensures Rectangle(s, m.widthTiles, m.heightTiles)
  {
    seq(m.heightTiles, r requires 0 <= r < m.heightTiles => RowsFit(m, layout, r); RedrawnRow(m, rows[r], layout, r))
  }

  lemma RedrawnTile(m: ArenaMap, rows: seq<string>, layout: Layout, k: nat)
    requires m.widthTiles > 0 && Rectangle(rows, m.widthTiles, m.heightTiles) && k < |layout| == TileCount(m)
    ensures Glyph(m, Redrawn(m, rows, layout), k) == RedrawnGlyph(layout[k], Glyph(m, rows, k))
  {
    var row := RowOfTile(m, k);
    RowsFit(m, layout, row);
    TileIndexJoins(m.widthTiles, k);
  }

  /** Obstacles replace only dots and old obstacles. */
  ghost predicate OnPlainTiles(m: ArenaMap, rows: seq<string>, layout: Layout) {
    forall k: nat :: k < |layout| && layout[k].Some? ==> Glyph(m, rows, k) in ".#+"
  }

  lemma SpecialGlyph(m: ArenaMap, rows: seq<string>, k: nat)
    requires Draws(m, rows) && k < TileCount(m) && Glyph(m, rows, k) in "ABXdD"
    ensures Special(m, k)
  {
    hide HasTile, Canonical;
    DrawnLists(m, rows);
    TileOfCenter(m, k);
    PointsOfHolds(m, rows, 'A', TileCount(m), CenterOfTile(m, k));
    PointsOfHolds(m, rows, 'B', TileCount(m), CenterOfTile(m, k));
    if Glyph(m, rows, k) in "AB" {
      assert CenterOfTile(m, k) in m.teamAAnchors + m.teamBAnchors && OnTile(m, CenterOfTile(m, k), k);
    } else if Glyph(m, rows, k) in "dD" {
      var f := FeatureAt(m, rows, k)[0];
      FeaturesOfHolds(m, rows, TileCount(m), f);
      assert f in m.features && OnTile(m, f.center, k);
    }
  }

  lemma SpecialIsNear(m: ArenaMap, radius: int, k: nat)
    requires m.tileUnits > 0 && m.widthTiles > 0 && radius >= 0 && Special(m, k)
    ensures NearSpecial(m, radius, k)
  {
    assert Chebyshev(CoordOf(m, k), CoordOf(m, k)) == 0;
  }

  lemma SoundIsOnPlainTiles(m: ArenaMap, rows: seq<string>, up: TieBreak, cfg: Configuration, layout: Layout)
    requires Draws(m, rows) && cfg.bufferRadius >= 0 && Sound(SiteFor(m, up, cfg), layout)
    ensures OnPlainTiles(m, rows, layout)
  {
    hide HasTile, Canonical, MirrorMap, EdgeDistance, GlyphAt;
    DrawnLists(m, rows);
    forall k: nat | k < |layout| && layout[k].Some? ensures Glyph(m, rows, k) in ".#+" {
      assert SiteFor(m, up, cfg).free(k);
      assert IsGlyph(Glyph(m, rows, k)) && Glyph(m, rows, k) != ' ';
      if Glyph(m, rows, k) in "ABXdD" {
        SpecialGlyph(m, rows, k);
        SpecialIsNear(m, cfg.bufferRadius, k);
      }
    }
  }

  /** A redrawn picture differs from the template's only in dots and obstacles. */
  ghost predicate Redraws(m: ArenaMap, a: seq<string>, b: seq<string>, layout: Layout) {
    |layout| == TileCount(m) && forall k: nat :: k < |layout| ==>
      Glyph(m, b, k) == RedrawnGlyph(layout[k], Glyph(m, a, k))
  }

  ghost predicate SameShape(m: ArenaMap, g: ArenaMap) {
    && g.widthTiles == m.widthTiles && g.heightTiles == m.heightTiles && g.tileUnits == m.tileUnits
    && g.widthUnits == m.widthUnits && g.heightUnits == m.heightUnits
  }

  lemma {:induction false} PointsSurvive(m: ArenaMap, g: ArenaMap, a: seq<string>, b: seq<string>, layout: Layout,
                                         glyph: char, n: nat)
    requires SameShape(m, g) && m.widthTiles > 0 && Redraws(m, a, b, layout) && OnPlainTiles(m, a, layout)
    requires glyph in "AB" && n <= |layout|
    ensures PointsOf(g, b, glyph, n) == PointsOf(m, a, glyph, n)
  {
    hide GlyphAt;
    if n > 0 {
      PointsSurvive(m, g, a, b, layout, glyph, n - 1);
      assert Glyph(g, b, n - 1) == Glyph(m, b, n - 1);
    }
  }

  lemma {:induction false} FeaturesSurvive(m: ArenaMap, g: ArenaMap, a: seq<string>, b: seq<string>, layout: Layout,
                                           n: nat)
    requires SameShape(m, g) && m.widthTiles > 0 && Redraws(m, a, b, layout) && OnPlainTiles(m, a, layout)
    requires n <= |layout|
    ensures FeaturesOf(g, b, n) == FeaturesOf(m, a, n)
  {
    hide GlyphAt;
    if n > 0 {
      FeaturesSurvive(m, g, a, b, layout, n - 1);
      assert Glyph(g, b, n - 1) == Glyph(m, b, n - 1);
    }
  }

  lemma {:induction false} ObstaclesAreEmitted(m: ArenaMap, g: ArenaMap, a: seq<string>, b: seq<string>,
                                               layout: Layout, n: nat)
    requires SameShape(m, g) && m.widthTiles > 0 && Redraws(m, a, b, layout) && n <= |layout|
    ensures ObstaclesOf(g, b, n) == EmittedUpTo(m, layout, n)
  {
    hide GlyphAt;
    if n > 0 {
      ObstaclesAreEmitted(m, g, a, b, layout, n - 1);
      assert Glyph(g, b, n - 1) == Glyph(m, b, n - 1);
      KindCases(layout[n - 1]);
    }
  }

  lemma MasksSurvive(m: ArenaMap, g: ArenaMap, a: seq<string>, b: seq<string>, layout: Layout, s: Scan, t: Scan)
    requires SameShape(m, g) && Redraws(m, a, b, layout) && OnPlainTiles(m, a, layout)
    requires MasksRead(m, a, TileCount(m), s) && MasksRead(g, b, TileCount(g), t)
    ensures s.footprint == t.footprint && s.objective == t.objective
  {
    hide HasTile, GlyphAt;
    forall k: nat
      ensures HasTile(s.footprint, k) == HasTile(t.footprint, k)
      ensures HasTile(s.objective, k) == HasTile(t.objective, k)
    {
      assert Glyph(g, b, k) == Glyph(m, b, k);
    }
    MaskIsItsTiles(s.footprint, t.footprint);
    MaskIsItsTiles(s.objective, t.objective);
  }

  lemma RedrawnIsCanonical(m: ArenaMap, rows: seq<string>, layout: Layout)
    requires Frames(m, rows) && Canonical(rows, m.widthTiles) && |layout| == TileCount(m)
      && OnPlainTiles(m, rows, layout)
    ensures Canonical(Redrawn(m, rows, layout), m.widthTiles)
  {
    var s := Redrawn(m, rows, layout);
    forall i, j | 0 <= i < |rows| && 0 <= j < m.widthTiles
      ensures IsGlyph(s[i][j]) && (s[i][j] == ' ' <==> rows[i][j] == ' ')
    {
      RedrawnCell(m, rows, layout, i, j);
    }
    forall i | 0 <= i < |s| ensures HasInk(s[i]) {
      var c :| c in rows[i] && c != ' ';
      var j :| 0 <= j < |rows[i]| && rows[i][j] == c;
      assert s[i][j] in s[i];
    }
    var i :| 0 <= i < |rows| && rows[i][m.widthTiles - 1] != ' ';
    assert s[i][m.widthTiles - 1] != ' ';
  }

  lemma RedrawnCell(m: ArenaMap, rows: seq<string>, layout: Layout, i: nat, j: nat)
    requires Frames(m, rows) && Rectangle(rows, m.widthTiles, |rows|) && |layout| == TileCount(m)
      && OnPlainTiles(m, rows, layout)
    requires i < |rows| && j < m.widthTiles && IsGlyph(rows[i][j])
    ensures var c := Redrawn(m, rows, layout)[i][j]; IsGlyph(c) && (c == ' ' <==> rows[i][j] == ' ')
  {
    var k := TileIndex(m.widthTiles, j, i);
    TileIndexSplits(m.widthTiles, j, i);
    TileIndexInRange(m.widthTiles, m.heightTiles, j, i);
    RedrawnTile(m, rows, layout, k);
    assert Glyph(m, rows, k) == rows[i][j];
    KindCases(layout[k]);
  }

  lemma DrawnRectangle(m: ArenaMap, rows: seq<string>)
    requires Draws(m, rows)
    ensures Rectangle(rows, m.widthTiles, m.heightTiles)
  {
  }

  /** A template with the layout emitted on it is drawn by the redrawn rows. */
  lemma EmittedIsDrawn(m: ArenaMap, g: ArenaMap, rows: seq<string>, layout: Layout)
    requires Draws(m, rows) && |layout| == TileCount(m) && OnPlainTiles(m, rows, layout)
    requires g == m.(mapId := g.mapId, obstacles := Emitted(m, layout))
    ensures Draws(g, Redrawn(m, rows, layout))
  {
    hide HasTile, GlyphAt, Canonical, ScanUpTo, IsGlyph, RedrawnGlyph, PointsOf, FeaturesOf, ObstaclesOf;
    DrawnRectangle(m, rows);
    var b := Redrawn(m, rows, layout);
    RedrawnFrames(m, g, rows, layout);
    var n := TileCount(m);
    DrawnLists(m, rows);
    ScanReads(g, b, n);
    var t := ScanUpTo(b, g.widthTiles, g.tileUnits, n).value;
    PointsSurvive(m, g, rows, b, layout, 'A', n);
    PointsSurvive(m, g, rows, b, layout, 'B', n);
    FeaturesSurvive(m, g, rows, b, layout, n);
    ObstaclesAreEmitted(m, g, rows, b, layout, n);
    MasksSurvive(m, g, rows, b, layout, ScanOf(m), t);
    assert t == ScanOf(g);
  }

  lemma RedrawnFrames(m: ArenaMap, g: ArenaMap, rows: seq<string>, layout: Layout)
    requires Draws(m, rows) && |layout| == TileCount(m) && OnPlainTiles(m, rows, layout)
    requires g == m.(mapId := g.mapId, obstacles := Emitted(m, layout))
    ensures Rectangle(rows, m.widthTiles, m.heightTiles)
    ensures var b := Redrawn(m, rows, layout);
            && Frames(g, b) && Canonical(b, g.widthTiles) && Redraws(m, rows, b, layout)
            && Supported(g, b, TileCount(g))
  {
    var b := Redrawn(m, rows, layout);
    RedrawnIsCanonical(m, rows, layout);
    forall k: nat | k < |layout| ensures Glyph(m, b, k) == RedrawnGlyph(layout[k], Glyph(m, rows, k)) {
      RedrawnTile(m, rows, layout, k);
    }
    forall k | 0 <= k < TileCount(g) ensures IsGlyph(Glyph(g, b, k)) {
      var row := RowOfTile(g, k);
    }
  }

  /** Every map generated from a drawn template is drawn, and leaves the template's own tiles alone. */
  lemma GeneratedIsDrawn(m: ArenaMap, rows: seq<string>, up: TieBreak, cfg: Configuration, mapId: string,
                         stream: Stream, position: nat)
    returns (layout: Layout, redrawn: seq<string>)
    requires Draws(m, rows) && cfg.styles != [] && PositiveWalls(cfg) && cfg.bufferRadius >= 0
    requires Generated(m, up, cfg, mapId, stream, position).Ok?
    ensures |layout| == TileCount(m) && OnPlainTiles(m, rows, layout)
    ensures Generated(m, up, cfg, mapId, stream, position) == Ok(m.(mapId := mapId, obstacles := Emitted(m, layout)))
    ensures Draws(m.(mapId := mapId, obstacles := Emitted(m, layout)), redrawn)
  {
    hide Generated, IsOutcome, Canonical, SiteFor, LayoutOf, Emitted, OnPlainTiles;
    var style, order, at;
    layout, style, order, at := GeneratedOutcome(m, up, cfg, mapId, stream, position);
    OutcomeIsSound(m, up, cfg, style, stream, layout, order, at);
    SoundIsOnPlainTiles(m, rows, up, cfg, layout);
    DrawnRectangle(m, rows);
    redrawn := Redrawn(m, rows, layout);
    EmittedIsDrawn(m, m.(mapId := mapId, obstacles := Emitted(m, layout)), rows, layout);
  }

  lemma TemplateIsDrawn(m: ArenaMap, text: string) returns (rows: seq<string>)
    requires ParsedMap(m.mapId, text, m.tileUnits) == Ok(m.(objectiveTargetMs := 0))
    ensures Draws(m, rows)
  {
    hide LayoutOf, Canonical, ParsedMap;
    rows := AcceptedIsDrawn(m.(objectiveTargetMs := 0), text);
  }

  /** Parsing undoes rendering for every map generated from an accepted template, id and objective time aside. */
  lemma GeneratedSurvivesText(m: ArenaMap, text: string, up: TieBreak, cfg: Configuration, mapId: string,
                              stream: Stream, position: nat, readId: string)
    requires ParsedMap(m.mapId, text, m.tileUnits) == Ok(m.(objectiveTargetMs := 0))
    requires cfg.styles != [] && PositiveWalls(cfg) && cfg.bufferRadius >= 0 && ValidGeometry(m)
    requires Generated(m, up, cfg, mapId, stream, position).Ok?
    ensures var g := Generated(m, up, cfg, mapId, stream, position).value;
            && ValidGeometry(g) && Rendered(g).Ok?
            && ParsedMap(readId, Rendered(g).value, g.tileUnits) == Ok(g.(mapId := readId, objectiveTargetMs := 0))
  {
    hide Generated, ParsedMap, Canonical, LayoutOf, Rendered, Emitted, OnPlainTiles;
    var rows := TemplateIsDrawn(m, text);
    var layout, redrawn := GeneratedIsDrawn(m, rows, up, cfg, mapId, stream, position);
    DrawnMapSurvives(m.(mapId := mapId, obstacles := Emitted(m, layout)), redrawn, readId);
  }

  lemma AnchorTile(m: ArenaMap, rows: seq<string>, p: Point) returns (k: nat)
    requires Draws(m, rows) && p in m.teamAAnchors + m.teamBAnchors
    ensures k < TileCount(m) && Glyph(m, rows, k) in "AB" && TileIndexForCenter(m, p) == Ok(k)
      && HasTile(m.footprintMask, k)
  {
    hide HasTile, GlyphAt, Canonical;
    DrawnLists(m, rows);
    PointsOfHolds(m, rows, 'A', TileCount(m), p);
    PointsOfHolds(m, rows, 'B', TileCount(m), p);
    k :| k < TileCount(m) && Glyph(m, rows, k) in "AB" && CenterOfTile(m, k) == p;
    TileOfCenter(m, k);
  }

  /** On an accepted template the anchors' own tiles are on the footprint and carry nothing. */
  lemma GeneratedAnchorsAreClear(m: ArenaMap, text: string, up: TieBreak, cfg: Configuration, mapId: string,
                                 stream: Stream, position: nat, p: Point)
    requires ParsedMap(m.mapId, text, m.tileUnits) == Ok(m.(objectiveTargetMs := 0))
    requires cfg.styles != [] && PositiveWalls(cfg) && cfg.bufferRadius >= 0 && ValidGeometry(m)
    requires Generated(m, up, cfg, mapId, stream, position).Ok? && p in m.teamAAnchors + m.teamBAnchors
    ensures var g := Generated(m, up, cfg, mapId, stream, position).value;
            var r := TileIndexForCenter(g, p);
            r.Ok? && HasTile(g.footprintMask, r.value) && forall kind :: !Carries(g, kind, r.value)
  {
    hide Generated, ParsedMap, Canonical, LayoutOf, Emitted, HasTile, Carries, GlyphAt;
    var rows := TemplateIsDrawn(m, text);
    var k := AnchorTile(m, rows, p);
    var layout, redrawn := GeneratedIsDrawn(m, rows, up, cfg, mapId, stream, position);
    var g := m.(mapId := mapId, obstacles := Emitted(m, layout));
    forall kind ensures !Carries(g, kind, k) {
      CarriesIsLayout(m, g, layout, kind, k);
    }
  }
}
