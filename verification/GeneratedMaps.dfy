/** Generation from template to emitted map, and what holds of every map it emits. */
module GeneratedMaps {
  import opened Anchors
  import opened ArenaMap
  import opened MapGenerator
  import opened MapParser
  import opened MapRng
  import opened Masks
  import opened Mirror
  import opened MirrorAxis
  import opened PathSearch
  import opened Phases
  import opened Placement
  import opened Prelude
  import opened Protection
  import opened Tiles

  // ----- reaching the objective

  ghost predicate HasObjective(m: ArenaMap) { exists k: nat :: k < TileCount(m) && HasTile(m.objectiveMask, k) }

  ghost predicate AnchorReaches(m: ArenaMap, layout: Layout, p: Point)
    requires m.tileUnits > 0 && Searchable(m, layout)
  {
    var r := TileIndexForCenter(m, p);
    r.Ok? && Reaches(m, layout, r.value)
  }

  ghost predicate AllReach(m: ArenaMap, layout: Layout)
    requires m.tileUnits > 0 && Searchable(m, layout)
  {
    HasObjective(m) && forall p <- m.teamAAnchors + m.teamBAnchors :: AnchorReaches(m, layout, p)
  }

  method FirstObjectiveIndex(m: ArenaMap) returns (first: Option<nat>)
    ensures first.Some? <==> HasObjective(m)
    ensures first.Some? ==> first.value < TileCount(m) && HasTile(m.objectiveMask, first.value)
                            && forall k: nat :: k < first.value ==> !HasTile(m.objectiveMask, k)
  {
    for k := 0 to TileCount(m)
      invariant forall j: nat :: j < k ==> !HasTile(m.objectiveMask, j)
    {
      if HasTile(m.objectiveMask, k) {
        return Some(k);
      }
    }
    first := None;
  }

  method AllSpawnAnchorsReachObjective(m: ArenaMap, layout: Layout) returns (all: bool)
    requires ValidGeometry(m) && |layout| == TileCount(m)
    ensures all <==> AllReach(m, layout)
  {
    var goal := FirstObjectiveIndex(m);
    if goal.None? {
      return false;
    }
    var anchors := m.teamAAnchors + m.teamBAnchors;
    for i := 0 to |anchors|
      invariant forall j :: 0 <= j < i ==> AnchorReaches(m, layout, anchors[j])
    {
      var start := TileIndexForCenter(m, anchors[i]);
      AcceptedPointIsCenter(m, anchors[i]);
      var found := false;
      if start.Ok? {
        found := PathExistsToObjective(m, layout, start.value);
      }
      if !found {
        assert anchors[i] in anchors && !AnchorReaches(m, layout, anchors[i]);
        return false;
      }
    }
    all := true;
  }

  // ----- the emitted obstacles

  function EmittedUpTo(m: ArenaMap, layout: Layout, n: nat): seq<Obstacle>
    requires m.widthTiles > 0 && n <= |layout|
  {
    if n == 0 then [] else
      EmittedUpTo(m, layout, n - 1)
      + match layout[n - 1]
        case None => []
        case Some(kind) => [MapObstacle(kind, CenterOfTile(m, n - 1), m.tileUnits)]
  }

  /** `obstacle_layout_to_map_obstacles`. */
  function Emitted(m: ArenaMap, layout: Layout): seq<Obstacle>
    requires m.widthTiles > 0
  {
    EmittedUpTo(m, layout, |layout|)
  }

  // ----- generation

  lemma ShuffledOrbits(site: Site, orbits: seq<set<nat>>, stream: Stream, position: nat)
    ensures NonEmptyOrbits(orbits) ==> NonEmptyOrbits(Shuffled(orbits, stream, position))
    ensures site.Valid() && AllCandidates(site, orbits) ==> AllCandidates(site, Shuffled(orbits, stream, position))
  {
    ShufflePermutes(orbits, stream, position);
    var s := Shuffled(orbits, stream, position);
    forall i | 0 <= i < |s|
      ensures NonEmptyOrbits(orbits) ==> s[i] != {}
      ensures site.Valid() && AllCandidates(site, orbits) ==> IsCandidate(site, s[i])
    {
      assert s[i] in s && s[i] in orbits;
      var j :| 0 <= j < |orbits| && orbits[j] == s[i];
    }
  }

  lemma CandidatesAreNonEmpty(site: Site)
    requires site.Valid()
    ensures NonEmptyOrbits(CandidateOrbits(site)) && AllCandidates(site, CandidateOrbits(site))
  {
    CandidateOrbitsCover(site, 0);
    var orbits := CandidateOrbits(site);
    forall i | 0 <= i < |orbits| ensures orbits[i] != {} {
      assert IsCandidate(site, orbits[i]);
    }
  }

  /** One attempt: shuffle the orbits, then build. */
  function Attempt(site: Site, cfg: Configuration, style: Style, orbits: seq<set<nat>>, stream: Stream, position: nat)
    : (r: Draft)
    requires site.Valid() && NonEmptyOrbits(orbits)
    ensures Fits(site, r)
  {
    ShuffledOrbits(site, orbits, stream, position);
    Built(site, cfg, style, stream, Shuffled(orbits, stream, position), position + ShuffleDraws(|orbits|))
  }

  /** The first of `n` attempts whose anchors all reach the objective. */
  ghost function Attempts(m: ArenaMap, site: Site, cfg: Configuration, style: Style, orbits: seq<set<nat>>,
                          stream: Stream, position: nat, n: nat): Option<Layout>
    requires m.tileUnits > 0 && m.widthTiles > 0 && site.Valid() && site.Count() == TileCount(m)
      && NonEmptyOrbits(orbits)
    decreases n
  {
    if n == 0 then None else
      var built := Attempt(site, cfg, style, orbits, stream, position);
      if AllReach(m, built.layout) then Some(built.layout)
      else Attempts(m, site, cfg, style, orbits, stream, built.position, n - 1)
  }

  ghost function SiteFor(m: ArenaMap, up: TieBreak, cfg: Configuration): (site: Site)
    requires ValidGeometry(m)
    ensures site.Valid() && site.Count() == TileCount(m)
  {
    SiteIsValid(m, up, cfg, ProtectedOf(m, cfg.bufferRadius));
    SiteCount(m, up, cfg, ProtectedOf(m, cfg.bufferRadius));
    SiteOf(m, up, cfg, ProtectedOf(m, cfg.bufferRadius))
  }

  function StyleAt(cfg: Configuration, stream: Stream, position: nat): Style
    requires cfg.styles != []
  {
    cfg.styles[(stream(position) / 0x1_0000_0000) % |cfg.styles|]
  }

  /** What generation returns once the template has an objective and all its points lie on tiles. */
  ghost function Generated(m: ArenaMap, up: TieBreak, cfg: Configuration, mapId: string, stream: Stream, position: nat)
    : Result<ArenaMap, ContentError>
    requires ValidGeometry(m) && cfg.styles != []
  {
    var site := SiteFor(m, up, cfg);
    var orbits := CandidateOrbits(site);
    CandidatesAreNonEmpty(site);
    if orbits == [] then Err(NoCandidateTiles) else
      match Attempts(m, site, cfg, StyleAt(cfg, stream, position), orbits, stream, position + 1, cfg.maxAttempts)
      case None => Err(NoLayoutFound)
      case Some(layout) => Ok(m.(mapId := mapId, obstacles := Emitted(m, layout)))
  }

  /** One round of the retry loop. */
  method RunAttempt(m: ArenaMap, up: TieBreak, cfg: Configuration, protected: seq<bool>, style: Style,
                    orbits: seq<set<nat>>, rng: MapRng)
    returns (layout: Layout)
    requires ValidGeometry(m) && |protected| == TileCount(m)
    requires SiteOf(m, up, cfg, protected).Valid() && NonEmptyOrbits(orbits)
    modifies rng
    ensures var d := Attempt(SiteOf(m, up, cfg, protected), cfg, style, orbits, rng.stream, old(rng.position));
            layout == d.layout && rng.position == d.position
  {
    hide SiteOf, Built, Shuffled, ShuffleDraws, NonEmptyOrbits, AllCandidates;
    var order := new set<nat>[|orbits|](i requires 0 <= i < |orbits| => orbits[i]);
    assert order[..] == orbits;
    Shuffle(order, rng);
    ShuffledOrbits(SiteOf(m, up, cfg, protected), orbits, rng.stream, old(rng.position));
    layout := BuildObstacleLayout(m, up, cfg, protected, style, rng, order[..]);
  }

  /** The retry loop of the generator. */
  method RunAttempts(m: ArenaMap, up: TieBreak, cfg: Configuration, protected: seq<bool>, style: Style,
                     orbits: seq<set<nat>>, rng: MapRng)
    returns (r: Option<Layout>)
    requires ValidGeometry(m) && |protected| == TileCount(m)
    requires SiteOf(m, up, cfg, protected).Valid() && SiteOf(m, up, cfg, protected).Count() == TileCount(m)
    requires NonEmptyOrbits(orbits)
    modifies rng
    ensures r == Attempts(m, SiteOf(m, up, cfg, protected), cfg, style, orbits, rng.stream, old(rng.position),
      cfg.maxAttempts)
  {
    hide SiteOf, Attempt, AllReach;
    ghost var site := SiteOf(m, up, cfg, protected);
    var left := cfg.maxAttempts;
    while left > 0
      invariant Attempts(m, site, cfg, style, orbits, rng.stream, rng.position, left)
             == Attempts(m, site, cfg, style, orbits, rng.stream, old(rng.position), cfg.maxAttempts)
    {
      var layout := RunAttempt(m, up, cfg, protected, style, orbits, rng);
      var reached := AllSpawnAnchorsReachObjective(m, layout);
      if reached {
        return Some(layout);
      }
      left := left - 1;
    }
    r := None;
  }

  /** `generate_template_match_map`. */
  method GenerateTemplateMatchMap(m: ArenaMap, up: TieBreak, cfg: Configuration, mapId: string, rng: MapRng)
    returns (r: Result<ArenaMap, ContentError>)
    requires ValidGeometry(m) && cfg.styles != []
    modifies rng
    ensures CountSetBits(m.objectiveMask) == 0 ==> r == Err(NoObjective)
    ensures CountSetBits(m.objectiveMask) != 0 && !AllOnTiles(m, PointsToGuard(m)) ==>
      r == Err(OffTile(FirstOffTile(m, PointsToGuard(m)).value))
    ensures CountSetBits(m.objectiveMask) != 0 && AllOnTiles(m, PointsToGuard(m)) ==>
      r == Generated(m, up, cfg, mapId, rng.stream, old(rng.position))
  {
    hide SiteOf, Attempts;
    if CountSetBits(m.objectiveMask) == 0 {
      return Err(NoObjective);
    }
    var protected := ProtectedTiles(m, cfg.bufferRadius);
    if protected.Err? {
      return Err(protected.error);
    }
    var orbits := CollectCandidateOrbits(m, up, cfg, protected.value);
    if orbits == [] {
      return Err(NoCandidateTiles);
    }
    var word := rng.NextU32();
    var style := cfg.styles[word % |cfg.styles|];
    CandidatesAreNonEmpty(SiteFor(m, up, cfg));
    var layout := RunAttempts(m, up, cfg, protected.value, style, orbits, rng);
    if layout.None? {
      return Err(NoLayoutFound);
    }
    r := Ok(m.(mapId := mapId, obstacles := Emitted(m, layout.value)));
  }

  // ----- from the emitted map back to the layout

  /** The emitted map carries an obstacle of this kind on tile `k`. */
  ghost predicate Carries(g: ArenaMap, kind: ObstacleKind, k: nat)
    requires g.tileUnits > 0
  {
    exists o <- g.obstacles :: o.kind == kind && OnTile(g, o.center, k)
  }

  lemma {:induction false} EmittedHolds(m: ArenaMap, layout: Layout, n: nat, o: Obstacle)
    requires m.widthTiles > 0 && n <= |layout|
    ensures o in EmittedUpTo(m, layout, n)
       <==> exists k :: 0 <= k < n && layout[k].Some?
                     && o == MapObstacle(layout[k].value, CenterOfTile(m, k), m.tileUnits)
  {
    if n > 0 {
      EmittedHolds(m, layout, n - 1, o);
    }
  }

  /** Tiles carry exactly what the layout put there. */
  lemma CarriesIsLayout(m: ArenaMap, g: ArenaMap, layout: Layout, kind: ObstacleKind, k: nat)
    requires ValidGeometry(m) && |layout| == TileCount(m)
    requires g == m.(mapId := g.mapId, obstacles := Emitted(m, layout))
    ensures Carries(g, kind, k) <==> k < |layout| && layout[k] == Some(kind)
  {
    hide HasTile;
    if Carries(g, kind, k) {
      var o :| o in g.obstacles && o.kind == kind && OnTile(g, o.center, k);
      EmittedHolds(m, layout, |layout|, o);
      var j :| 0 <= j < |layout| && layout[j].Some?
        && o == MapObstacle(layout[j].value, CenterOfTile(m, j), m.tileUnits);
      TileOfCenter(g, j);
      assert CenterOfTile(g, j) == CenterOfTile(m, j);
    }
    if k < |layout| && layout[k] == Some(kind) {
      var o := MapObstacle(kind, CenterOfTile(m, k), m.tileUnits);
      EmittedHolds(m, layout, |layout|, o);
      TileOfCenter(g, k);
      assert CenterOfTile(g, k) == CenterOfTile(m, k);
      assert o in g.obstacles && OnTile(g, o.center, k);
    }
  }

  // ----- what every successful generation is

  /** A layout the generator may end with: built from candidate orbits in some order, all anchors reaching. */
  ghost predicate IsOutcome(m: ArenaMap, site: Site, cfg: Configuration, style: Style, stream: Stream, layout: Layout,
                            order: seq<set<nat>>, position: nat)
    requires m.tileUnits > 0 && m.widthTiles > 0 && site.Valid() && site.Count() == TileCount(m)
  {
    && AllCandidates(site, order) && NonEmptyOrbits(order)
    && (forall o :: o in order <==> o in CandidateOrbits(site))
    && layout == Built(site, cfg, style, stream, order, position).layout
    && AllReach(m, layout)
  }

  lemma {:induction false} AttemptsOutcome(m: ArenaMap, site: Site, cfg: Configuration, style: Style,
                                           orbits: seq<set<nat>>, stream: Stream, position: nat, n: nat)
    returns (order: seq<set<nat>>, at: nat)
    requires m.tileUnits > 0 && m.widthTiles > 0 && site.Valid() && site.Count() == TileCount(m)
    requires NonEmptyOrbits(orbits) && AllCandidates(site, orbits) && orbits == CandidateOrbits(site)
    requires Attempts(m, site, cfg, style, orbits, stream, position, n).Some?
    ensures IsOutcome(m, site, cfg, style, stream, Attempts(m, site, cfg, style, orbits, stream, position, n).value,
      order, at)
    decreases n
  {
    hide Built, AllReach, CandidateOrbits;
    var built := Attempt(site, cfg, style, orbits, stream, position);
    if AllReach(m, built.layout) {
      ShuffledOrbits(site, orbits, stream, position);
      ShufflePermutes(orbits, stream, position);
      order, at := Shuffled(orbits, stream, position), position + ShuffleDraws(|orbits|);
    } else {
      order, at := AttemptsOutcome(m, site, cfg, style, orbits, stream, built.position, n - 1);
    }
  }

  lemma GeneratedOutcome(m: ArenaMap, up: TieBreak, cfg: Configuration, mapId: string, stream: Stream, position: nat)
    returns (layout: Layout, style: Style, order: seq<set<nat>>, at: nat)
    requires ValidGeometry(m) && cfg.styles != [] && Generated(m, up, cfg, mapId, stream, position).Ok?
    ensures style in cfg.styles && IsOutcome(m, SiteFor(m, up, cfg), cfg, style, stream, layout, order, at)
    ensures |layout| == TileCount(m)
    ensures Generated(m, up, cfg, mapId, stream, position) == Ok(m.(mapId := mapId, obstacles := Emitted(m, layout)))
  {
    hide Built, AllReach, SiteFor, Attempts, CandidateOrbits, RollAt;
    var site := SiteFor(m, up, cfg);
    CandidatesAreNonEmpty(site);
    var orbits := CandidateOrbits(site);
    style := StyleAt(cfg, stream, position);
    order, at := AttemptsOutcome(m, site, cfg, style, orbits, stream, position + 1, cfg.maxAttempts);
    layout := Attempts(m, site, cfg, style, orbits, stream, position + 1, cfg.maxAttempts).value;
  }

  // ----- the promises

  /** A tile of the board that is on the footprint and carries no pillar. */
  ghost predicate Clear(g: ArenaMap, k: nat)
    requires g.tileUnits > 0
  {
    k < TileCount(g) && HasTile(g.footprintMask, k) && !Carries(g, Pillar, k)
  }

  /** A walk over the emitted map: every tile after the first is clear. */
  ghost predicate ClearWalk(g: ArenaMap, path: seq<nat>)
    requires g.tileUnits > 0 && g.widthTiles > 0
  {
    path != [] && forall i :: 0 < i < |path| ==> Adjacent(g, path[i - 1], path[i]) && Clear(g, path[i])
  }

  ghost predicate LeadsToObjective(g: ArenaMap, start: nat)
    requires g.tileUnits > 0 && g.widthTiles > 0
  {
    exists path :: ClearWalk(g, path) && path[0] == start && HasTile(g.objectiveMask, path[|path| - 1])
  }

  lemma WalkIsClear(m: ArenaMap, g: ArenaMap, layout: Layout, path: seq<nat>)
    requires ValidGeometry(m) && |layout| == TileCount(m)
    requires g == m.(mapId := g.mapId, obstacles := Emitted(m, layout))
    ensures IsWalk(m, layout, path) <==> ClearWalk(g, path)
  {
    hide HasTile, Carries;
    forall k: nat ensures Open(m, layout, k) <==> Clear(g, k) {
      CarriesIsLayout(m, g, layout, Pillar, k);
    }
  }

  /** Every spawn anchor of a generated map can walk to an objective tile past all emitted pillars. */
  lemma GeneratedKeepsAccess(m: ArenaMap, up: TieBreak, cfg: Configuration, mapId: string, stream: Stream,
                             position: nat, p: Point)
    requires ValidGeometry(m) && cfg.styles != [] && Generated(m, up, cfg, mapId, stream, position).Ok?
    requires p in m.teamAAnchors + m.teamBAnchors
    ensures var g := Generated(m, up, cfg, mapId, stream, position).value;
            && g.teamAAnchors == m.teamAAnchors && g.teamBAnchors == m.teamBAnchors
            && TileIndexForCenter(g, p).Ok? && LeadsToObjective(g, TileIndexForCenter(g, p).value)
  {
    hide Built, HasTile, Carries, SiteFor;
    var layout, style, order, at := GeneratedOutcome(m, up, cfg, mapId, stream, position);
    var g := m.(mapId := mapId, obstacles := Emitted(m, layout));
    assert AnchorReaches(m, layout, p);
    var start := TileIndexForCenter(m, p).value;
    var goal: nat :| HasTile(m.objectiveMask, goal) && Walks(m, layout, start, goal);
    var path :| IsWalk(m, layout, path) && path[0] == start && path[|path| - 1] == goal;
    WalkIsClear(m, g, layout, path);
    assert ClearWalk(g, path) && path[0] == start && HasTile(g.objectiveMask, path[|path| - 1]);
  }

  lemma OutcomeIsSound(m: ArenaMap, up: TieBreak, cfg: Configuration, style: Style, stream: Stream, layout: Layout,
                       order: seq<set<nat>>, at: nat)
    requires ValidGeometry(m) && PositiveWalls(cfg)
    requires IsOutcome(m, SiteFor(m, up, cfg), cfg, style, stream, layout, order, at)
    ensures Sound(SiteFor(m, up, cfg), layout)
  {
    hide Built, AllReach, SiteFor;
    BuiltIsSafe(SiteFor(m, up, cfg), cfg, style, stream, order, at);
  }

  /** Obstacles stand on footprint tiles away from everything authored; pillars keep the edge padding. */
  lemma GeneratedIsSafe(m: ArenaMap, up: TieBreak, cfg: Configuration, mapId: string, stream: Stream, position: nat,
                        kind: ObstacleKind, k: nat)
    requires ValidGeometry(m) && cfg.styles != [] && PositiveWalls(cfg)
    requires Generated(m, up, cfg, mapId, stream, position).Ok?
    requires Carries(Generated(m, up, cfg, mapId, stream, position).value, kind, k)
    ensures k < TileCount(m) && HasTile(m.footprintMask, k) && !NearSpecial(m, cfg.bufferRadius, k)
    ensures kind == Pillar ==>
      && cfg.edgePadding <= ColumnOf(m.widthTiles, k) < m.widthTiles - cfg.edgePadding
      && cfg.edgePadding <= RowOf(m.widthTiles, k) < m.heightTiles - cfg.edgePadding
  {
    hide Built, HasTile, Carries, IsOutcome, MirrorMap;
    var layout, style, order, at := GeneratedOutcome(m, up, cfg, mapId, stream, position);
    var g := m.(mapId := mapId, obstacles := Emitted(m, layout));
    OutcomeIsSound(m, up, cfg, style, stream, layout, order, at);
    CarriesIsLayout(m, g, layout, kind, k);
    assert SiteFor(m, up, cfg).free(k);
    PaddingIsMargin(m, k, cfg.edgePadding);
  }

  /** The obstacles are closed under the diagonal mirror, kind by kind. */
  lemma GeneratedIsMirrored(m: ArenaMap, up: TieBreak, cfg: Configuration, mapId: string, stream: Stream,
                            position: nat, kind: ObstacleKind, k: nat)
    requires ValidGeometry(m) && cfg.styles != [] && PositiveWalls(cfg)
    requires Generated(m, up, cfg, mapId, stream, position).Ok?
    ensures var g := Generated(m, up, cfg, mapId, stream, position).value;
            Carries(g, kind, k) ==> Carries(g, kind, MirrorMap(BoardOf(m, up))(k))
    ensures var g := Generated(m, up, cfg, mapId, stream, position).value;
            m.widthTiles == m.heightTiles ==> (Carries(g, kind, k) <==> Carries(g, kind, MirrorMap(BoardOf(m, up))(k)))
  {
    hide Built, HasTile, Carries, IsOutcome, MirrorMap, EdgeDistance;
    var layout, style, order, at := GeneratedOutcome(m, up, cfg, mapId, stream, position);
    var g := m.(mapId := mapId, obstacles := Emitted(m, layout));
    var site, image := SiteFor(m, up, cfg), MirrorMap(BoardOf(m, up))(k);
    OutcomeIsSound(m, up, cfg, style, stream, layout, order, at);
    CarriesIsLayout(m, g, layout, kind, k);
    CarriesIsLayout(m, g, layout, kind, image);
    if k < |layout| {
      if layout[k].Some? {
        assert Mirrored(site, layout, k);
      }
      if m.widthTiles == m.heightTiles {
        SquareMirrorUndoes(BoardOf(m, up), k);
        LayoutIsSymmetric(site, layout, k);
      }
    } else {
      OffBoardStays(BoardOf(m, up), k);
    }
  }

  lemma SquareMirrorUndoes(b: Board, k: nat)
    requires b.Valid() && b.width == b.height && k < b.Count()
    ensures MirrorMap(b)(MirrorMap(b)(k)) == k
  {
    MirrorTwiceOnSquare(b, k);
  }

  lemma OffBoardStays(b: Board, k: nat)
    requires b.Valid() && k >= b.Count()
    ensures MirrorMap(b)(k) == k
  {
  }

  /**
   The pillars of a generated map are exactly the tiles of walls and isolated pillars that the configuration
   allows, as many as one of its styles asks for, anchored at the spots the generator recorded. Walls come
   first, share no tile and keep the wall spacing; isolated pillars keep theirs from every earlier anchor.
   */
  lemma GeneratedKeepsSpacing(m: ArenaMap, up: TieBreak, cfg: Configuration, mapId: string, stream: Stream,
                              position: nat)
    returns (style: Style, order: seq<set<nat>>, at: nat, anchors: seq<Anchor>, spots: seq<Spot>, walls: nat)
    requires ValidGeometry(m) && cfg.styles != [] && PositiveWalls(cfg)
    requires Generated(m, up, cfg, mapId, stream, position).Ok?
    ensures var site := SiteFor(m, up, cfg);
            && style in cfg.styles && AllCandidates(site, order) && NonEmptyOrbits(order)
            && (forall o :: o in order <==> o in CandidateOrbits(site))
            && spots == Built(site, cfg, style, stream, order, at).spots
            && walls == |AfterWalls(site, cfg, style, stream, order, at).spots|
            && Generated(m, up, cfg, mapId, stream, position).value.obstacles
               == Emitted(m, Built(site, cfg, style, stream, order, at).layout)
    ensures var g, site := Generated(m, up, cfg, mapId, stream, position).value, SiteFor(m, up, cfg);
            forall k: nat :: Carries(g, Pillar, k) <==> Held(site, anchors, k)
    ensures var site := SiteFor(m, up, cfg);
            && AllLegal(site, cfg, anchors) && WallsFirst(site, anchors, walls) && |anchors| == |spots|
            && forall i :: 0 <= i < |anchors| ==> AnchorSpot(site, anchors[i]) == spots[i]
    ensures walls <= |spots| && walls <= style.wallSegments && |spots| <= walls + style.isolatedPillars
    ensures SpacedFrom(spots[..walls], 0, cfg.wallSpacing) && SpacedFrom(spots, walls, cfg.pillarSpacing)
  {
    hide Built, AfterWalls, HasTile, Carries, AllReach, MirrorMap, EdgeDistance, AllLegal, Held, WallsFirst, SiteFor,
         CandidateOrbits;
    var layout;
    layout, style, order, at := GeneratedOutcome(m, up, cfg, mapId, stream, position);
    var g := m.(mapId := mapId, obstacles := Emitted(m, layout));
    var site := SiteFor(m, up, cfg);
    BuiltIsSafe(site, cfg, style, stream, order, at);
    anchors := BuiltIsExplained(site, cfg, style, stream, order, at);
    var built := Built(site, cfg, style, stream, order, at);
    spots, walls := built.spots, |AfterWalls(site, cfg, style, stream, order, at).spots|;
    assert spots[..walls] == AfterWalls(site, cfg, style, stream, order, at).spots;
    forall k: nat ensures Carries(g, Pillar, k) <==> Held(site, anchors, k) {
      CarriesIsLayout(m, g, layout, Pillar, k);
      HeldOnBoard(site, cfg, anchors, k);
    }
  }

  /** Generation gives up for want of tiles exactly when no tile has a wholly free orbit. */
  lemma NoCandidatesMeansNoRoom(m: ArenaMap, up: TieBreak, cfg: Configuration, mapId: string, stream: Stream,
                                position: nat)
    requires ValidGeometry(m) && cfg.styles != []
    ensures Generated(m, up, cfg, mapId, stream, position) == Err(NoCandidateTiles)
       <==> forall k: nat :: !Buildable(SiteFor(m, up, cfg), k)
  {
    hide SiteFor, Attempts, CandidateOrbits, Buildable, AllCandidates;
    var site := SiteFor(m, up, cfg);
    var orbits := CandidateOrbits(site);
    CandidatesAreNonEmpty(site);
    forall k: nat ensures Buildable(site, k) <==> Covered(orbits, k) {
      CandidateOrbitsCover(site, k);
    }
    if orbits != [] {
      var k :| k in orbits[0];
      assert Covered(orbits, k);
    }
  }
}
