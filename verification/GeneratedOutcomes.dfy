/** Which attempt a generation ends with, when it fails, and how full the emitted map is. */
module GeneratedOutcomes {
  import opened Anchors
  import opened ArenaMap
  import opened GeneratedMaps
  import opened MapRng
  import opened Masks
  import opened MirrorAxis
  import opened PathSearch
  import opened Phases
  import opened Placement
  import opened Prelude
  import opened Progress

  // ----- which attempt wins

  /** The `i`-th attempt: each starts drawing where the one before it stopped. */
  ghost function AttemptNumber(site: Site, cfg: Configuration, style: Style, orbits: seq<set<nat>>, stream: Stream,
                               position: nat, i: nat): (r: Draft)
    requires site.Valid() && NonEmptyOrbits(orbits)
    ensures Fits(site, r)
  {
    if i == 0 then Attempt(site, cfg, style, orbits, stream, position)
    else Attempt(site, cfg, style, orbits, stream,
                 AttemptNumber(site, cfg, style, orbits, stream, position, i - 1).position)
  }

  lemma {:induction false} AttemptShifts(site: Site, cfg: Configuration, style: Style, orbits: seq<set<nat>>,
                                         stream: Stream, position: nat, i: nat)
    requires site.Valid() && NonEmptyOrbits(orbits)
    ensures AttemptNumber(site, cfg, style, orbits, stream, position, i + 1)
         == AttemptNumber(site, cfg, style, orbits, stream,
                          Attempt(site, cfg, style, orbits, stream, position).position, i)
    decreases i
  {
    hide Attempt;
    if i > 0 {
      AttemptShifts(site, cfg, style, orbits, stream, position, i - 1);
    }
  }

  /** The layout of the `i`-th attempt lets every anchor reach the objective. */
  ghost predicate Succeeds(m: ArenaMap, site: Site, cfg: Configuration, style: Style, orbits: seq<set<nat>>,
                           stream: Stream, position: nat, i: nat)
    requires m.tileUnits > 0 && m.widthTiles > 0 && site.Valid() && site.Count() == TileCount(m)
      && NonEmptyOrbits(orbits)
  {
    AllReach(m, AttemptNumber(site, cfg, style, orbits, stream, position, i).layout)
  }

  lemma {:induction false} FirstSuccessWins(m: ArenaMap, site: Site, cfg: Configuration, style: Style,
                                            orbits: seq<set<nat>>, stream: Stream, position: nat, n: nat)
    returns (first: nat)
    requires m.tileUnits > 0 && m.widthTiles > 0 && site.Valid() && site.Count() == TileCount(m)
      && NonEmptyOrbits(orbits)
    ensures var r := Attempts(m, site, cfg, style, orbits, stream, position, n);
            if r.None? then forall i: nat :: i < n ==> !Succeeds(m, site, cfg, style, orbits, stream, position, i)
            else
              && first < n && Succeeds(m, site, cfg, style, orbits, stream, position, first)
              && (forall i: nat :: i < first ==> !Succeeds(m, site, cfg, style, orbits, stream, position, i))
              && r.value == AttemptNumber(site, cfg, style, orbits, stream, position, first).layout
    decreases n
  {
    hide Attempt, AllReach;
    first := 0;
    if n > 0 {
      var built := Attempt(site, cfg, style, orbits, stream, position);
      assert AttemptNumber(site, cfg, style, orbits, stream, position, 0) == built;
      if !AllReach(m, built.layout) {
        var rest := FirstSuccessWins(m, site, cfg, style, orbits, stream, built.position, n - 1);
        first := rest + 1;
        forall i: nat | 0 < i <= n
          ensures Succeeds(m, site, cfg, style, orbits, stream, position, i)
             <==> Succeeds(m, site, cfg, style, orbits, stream, built.position, i - 1)
          ensures AttemptNumber(site, cfg, style, orbits, stream, position, i)
               == AttemptNumber(site, cfg, style, orbits, stream, built.position, i - 1)
        {
          AttemptShifts(site, cfg, style, orbits, stream, position, i - 1);
        }
      }
    }
  }

  // ----- success and failure, seen on the maps

  /** Every spawn anchor of the map walks to an objective tile. */
  ghost predicate KeepsAccess(g: ArenaMap)
    requires g.tileUnits > 0 && g.widthTiles > 0
  {
    forall p <- g.teamAAnchors + g.teamBAnchors ::
      TileIndexForCenter(g, p).Ok? && LeadsToObjective(g, TileIndexForCenter(g, p).value)
  }

  lemma ReachingIsLeading(m: ArenaMap, g: ArenaMap, layout: Layout, start: nat)
    requires ValidGeometry(m) && |layout| == TileCount(m)
    requires g == m.(mapId := g.mapId, obstacles := Emitted(m, layout))
    ensures Reaches(m, layout, start) <==> LeadsToObjective(g, start)
  {
    hide HasTile, Emitted, Adjacent, Clear;
    forall path ensures IsWalk(m, layout, path) <==> ClearWalk(g, path) {
      WalkIsClear(m, g, layout, path);
    }
    if LeadsToObjective(g, start) {
      var path :| ClearWalk(g, path) && path[0] == start && HasTile(g.objectiveMask, path[|path| - 1]);
      assert Walks(m, layout, start, path[|path| - 1]);
    }
    if Reaches(m, layout, start) {
      var goal: nat :| HasTile(m.objectiveMask, goal) && Walks(m, layout, start, goal);
      var path :| IsWalk(m, layout, path) && path[0] == start && path[|path| - 1] == goal;
      assert ClearWalk(g, path);
    }
  }

  /** The check made on the layout says what it should of the map the layout becomes. */
  lemma ReachIsAccess(m: ArenaMap, g: ArenaMap, layout: Layout)
    requires ValidGeometry(m) && |layout| == TileCount(m) && HasObjective(m)
    requires g == m.(mapId := g.mapId, obstacles := Emitted(m, layout))
    ensures AllReach(m, layout) <==> KeepsAccess(g)
  {
    hide HasTile, Emitted, Reaches, LeadsToObjective;
    forall p: Point ensures TileIndexForCenter(g, p) == TileIndexForCenter(m, p)
      ensures TileIndexForCenter(m, p).Ok? ==>
        (Reaches(m, layout, TileIndexForCenter(m, p).value) <==> LeadsToObjective(g, TileIndexForCenter(g, p).value))
    {
      if TileIndexForCenter(m, p).Ok? {
        ReachingIsLeading(m, g, layout, TileIndexForCenter(m, p).value);
      }
    }
    forall p: Point ensures AnchorReaches(m, layout, p)
      <==> TileIndexForCenter(g, p).Ok? && LeadsToObjective(g, TileIndexForCenter(g, p).value)
    {
    }
  }

  /** The map the `i`-th attempt would emit. */
  ghost function TriedMap(m: ArenaMap, up: TieBreak, cfg: Configuration, mapId: string, stream: Stream,
                          position: nat, i: nat): (g: ArenaMap)
    requires ValidGeometry(m) && cfg.styles != []
    ensures g.tileUnits > 0 && g.widthTiles > 0
  {
    var site := SiteFor(m, up, cfg);
    CandidatesAreNonEmpty(site);
    m.(mapId := mapId,
       obstacles := Emitted(m, AttemptNumber(site, cfg, StyleAt(cfg, stream, position), CandidateOrbits(site), stream,
                                             position + 1, i).layout))
  }

  /**
   On a template with an objective and a buildable tile, generation returns the map of the first attempt that
   leaves every anchor a way to the objective, and fails exactly when all of its attempts block some anchor.
   */
  lemma FirstOpenMapWins(m: ArenaMap, up: TieBreak, cfg: Configuration, mapId: string, stream: Stream, position: nat)
    returns (first: nat)
    requires ValidGeometry(m) && cfg.styles != [] && HasObjective(m) && CandidateOrbits(SiteFor(m, up, cfg)) != []
    ensures var r := Generated(m, up, cfg, mapId, stream, position);
            if r.Err? then
              && r == Err(NoLayoutFound)
              && forall i: nat :: i < cfg.maxAttempts ==>
                   !KeepsAccess(TriedMap(m, up, cfg, mapId, stream, position, i))
            else
              && first < cfg.maxAttempts && r == Ok(TriedMap(m, up, cfg, mapId, stream, position, first))
              && KeepsAccess(r.value)
              && forall i: nat :: i < first ==> !KeepsAccess(TriedMap(m, up, cfg, mapId, stream, position, i))
  {
    hide SiteFor, CandidateOrbits, AttemptNumber, Attempts, Emitted, KeepsAccess, AllReach, RollAt, HasObjective;
    var site, style := SiteFor(m, up, cfg), StyleAt(cfg, stream, position);
    CandidatesAreNonEmpty(site);
    first := FirstSuccessWins(m, site, cfg, style, CandidateOrbits(site), stream, position + 1, cfg.maxAttempts);
    forall i: nat
      ensures Succeeds(m, site, cfg, style, CandidateOrbits(site), stream, position + 1, i)
         <==> KeepsAccess(TriedMap(m, up, cfg, mapId, stream, position, i))
    {
      ReachIsAccess(m, TriedMap(m, up, cfg, mapId, stream, position, i),
        AttemptNumber(site, cfg, style, CandidateOrbits(site), stream, position + 1, i).layout);
    }
  }

  // ----- how full the emitted map is

  /** How many walls and pillars a finished run placed, against what the style asked for. */
  lemma QuotasAdd(site: Site, cfg: Configuration, style: Style, stream: Stream, orbits: seq<set<nat>>, position: nat)
    requires site.Valid() && AllCandidates(site, orbits) && NonEmptyOrbits(orbits) && PositiveWalls(cfg)
    ensures var walls := AfterWalls(site, cfg, style, stream, orbits, position);
            var stones := AfterPillars(site, cfg, style, stream, orbits, position);
            && |walls.spots| + walls.remaining == style.wallSegments
            && |stones.spots| + stones.remaining == |walls.spots| + style.isolatedPillars
            && walls.spots <= stones.spots
            && Built(site, cfg, style, stream, orbits, position).spots == stones.spots
  {
    hide Walls, Pillars, Shrubs, AllCandidates, NonEmptyOrbits;
    BlankIsStony(site, style.wallSegments, position);
    WallsKeep(site, cfg, stream, orbits, Draft(BlankLayout(site.Count()), [], style.wallSegments, position));
    var walls := AfterWalls(site, cfg, style, stream, orbits, position);
    PillarsKeep(site, cfg, stream, orbits, walls.(remaining := style.isolatedPillars), |walls.spots|);
    ShrubsStandWhereGrown(site, cfg, style, stream, orbits, position, 0);
  }

  /** A run without skipping leaves no room: what the quotas left over, no orbit of the order can take. */
  lemma BuiltIsFull(site: Site, cfg: Configuration, style: Style, stream: Stream, orbits: seq<set<nat>>,
                    position: nat, i: nat)
    requires site.Valid() && AllCandidates(site, orbits) && NonEmptyOrbits(orbits) && PositiveWalls(cfg)
    requires i < |orbits|
    ensures var walls := AfterWalls(site, cfg, style, stream, orbits, position);
            cfg.wallSkipPercent == 0 && cfg.wallSpacing >= 0 && |walls.spots| < style.wallSegments ==>
              || (exists s <- walls.spots :: Manhattan(Representative(site, orbits[i]), s) <= cfg.wallSpacing)
              || forall dir <- CARDINAL_DIRECTIONS ::
                   !WallFits(site, walls.layout, Representative(site, orbits[i]), dir, cfg.shortWall)
    ensures var walls := AfterWalls(site, cfg, style, stream, orbits, position);
            var built := Built(site, cfg, style, stream, orbits, position);
            cfg.pillarSkipPercent == 0 && cfg.pillarSpacing >= 0 && site.AllSafe(orbits[i])
            && |built.spots| < |walls.spots| + style.isolatedPillars ==>
              exists s <- built.spots :: Manhattan(Representative(site, orbits[i]), s) <= cfg.pillarSpacing
  {
    hide Walls, Pillars, Built, AllCandidates, Manhattan, WallFits, Representative, SomeHit;
    QuotasAdd(site, cfg, style, stream, orbits, position);
    var walls := AfterWalls(site, cfg, style, stream, orbits, position);
    if cfg.wallSpacing >= 0 {
      WallsFillUp(site, cfg, stream, orbits, Draft(BlankLayout(site.Count()), [], style.wallSegments, position), i);
    }
    if cfg.pillarSpacing >= 0 && site.AllSafe(orbits[i]) {
      PillarsFillUp(site, cfg, stream, orbits, walls.(remaining := style.isolatedPillars), i);
    }
  }

  /**
   A generation that skips nothing emits a full map. It has as many walls as its style asks for, or no candidate
   orbit could take another; and as many isolated pillars, or every candidate orbit on safe tiles is too close to
   something placed.
   */
  lemma GeneratedIsFull(m: ArenaMap, up: TieBreak, cfg: Configuration, mapId: string, stream: Stream, position: nat)
    returns (style: Style, walls: Draft, built: Draft)
    requires ValidGeometry(m) && cfg.styles != [] && PositiveWalls(cfg)
    requires Generated(m, up, cfg, mapId, stream, position).Ok?
    requires cfg.wallSkipPercent == 0 && cfg.wallSpacing >= 0 && cfg.pillarSkipPercent == 0 && cfg.pillarSpacing >= 0
    ensures Fits(SiteFor(m, up, cfg), walls) && Fits(SiteFor(m, up, cfg), built) && walls.spots <= built.spots
    ensures style in cfg.styles
      && Generated(m, up, cfg, mapId, stream, position).value.obstacles == Emitted(m, built.layout)
    ensures var site := SiteFor(m, up, cfg);
            |walls.spots| == style.wallSegments
            || forall orbit <- CandidateOrbits(site) :: orbit != {}
                 && (|| (exists s <- walls.spots :: Manhattan(Representative(site, orbit), s) <= cfg.wallSpacing)
                     || forall dir <- CARDINAL_DIRECTIONS ::
                          !WallFits(site, walls.layout, Representative(site, orbit), dir, cfg.shortWall))
    ensures var site := SiteFor(m, up, cfg);
            |built.spots| == |walls.spots| + style.isolatedPillars
            || forall orbit <- CandidateOrbits(site) :: orbit != {}
                 && (site.AllSafe(orbit) ==>
                       exists s <- built.spots :: Manhattan(Representative(site, orbit), s) <= cfg.pillarSpacing)
  {
    hide SiteFor, CandidateOrbits, Built, AfterWalls, AfterPillars, Manhattan, WallFits, Representative, AllReach,
         AllCandidates;
    var site := SiteFor(m, up, cfg);
    var layout, order, at;
    layout, style, order, at := GeneratedOutcome(m, up, cfg, mapId, stream, position);
    walls := AfterWalls(site, cfg, style, stream, order, at);
    built := Built(site, cfg, style, stream, order, at);
    QuotasAdd(site, cfg, style, stream, order, at);
    forall orbit | orbit in CandidateOrbits(site)
      ensures exists i :: 0 <= i < |order| && order[i] == orbit
    {
      assert orbit in order;
    }
    forall i | 0 <= i < |order|
      ensures |walls.spots| < style.wallSegments ==>
        || (exists s <- walls.spots :: Manhattan(Representative(site, order[i]), s) <= cfg.wallSpacing)
        || forall dir <- CARDINAL_DIRECTIONS ::
             !WallFits(site, walls.layout, Representative(site, order[i]), dir, cfg.shortWall)
      ensures site.AllSafe(order[i]) && |built.spots| < |walls.spots| + style.isolatedPillars ==>
        exists s <- built.spots :: Manhattan(Representative(site, order[i]), s) <= cfg.pillarSpacing
    {
      BuiltIsFull(site, cfg, style, stream, order, at, i);
    }
  }

  /** Where a generated map carries shrubs: on the orbits that touch no pillar and hit their own draw. */
  lemma GeneratedShrubs(m: ArenaMap, up: TieBreak, cfg: Configuration, mapId: string, stream: Stream, position: nat)
    returns (style: Style, order: seq<set<nat>>, stones: Draft)
    requires ValidGeometry(m) && cfg.styles != [] && PositiveWalls(cfg)
    requires Generated(m, up, cfg, mapId, stream, position).Ok?
    ensures style in cfg.styles && NonEmptyOrbits(order) && |stones.layout| == TileCount(m)
    ensures forall o :: o in order <==> o in CandidateOrbits(SiteFor(m, up, cfg))
    ensures var g := Generated(m, up, cfg, mapId, stream, position).value;
            forall k: nat :: Carries(g, Pillar, k) <==> k < |stones.layout| && stones.layout[k] == Some(Pillar)
    ensures var g, site := Generated(m, up, cfg, mapId, stream, position).value, SiteFor(m, up, cfg);
            forall k: nat :: Carries(g, Shrub, k) <==>
              k < TileCount(m) && Overgrown(site, style, stream, order, stones, |order|, k)
  {
    hide SiteFor, CandidateOrbits, Built, AfterPillars, Carries, AllReach, AllCandidates, UntouchedBefore, ShrubChance,
         Untouched, RollAt, NonEmptyOrbits;
    var site := SiteFor(m, up, cfg);
    var layout, at;
    layout, style, order, at := GeneratedOutcome(m, up, cfg, mapId, stream, position);
    stones := AfterPillars(site, cfg, style, stream, order, at);
    var g := Generated(m, up, cfg, mapId, stream, position).value;
    forall k: nat
      ensures Carries(g, Pillar, k) <==> k < |stones.layout| && stones.layout[k] == Some(Pillar)
      ensures Carries(g, Shrub, k) <==>
        k < TileCount(m) && Overgrown(site, style, stream, order, stones, |order|, k)
    {
      CarriesIsLayout(m, g, layout, Pillar, k);
      CarriesIsLayout(m, g, layout, Shrub, k);
      ShrubsStandWhereGrown(site, cfg, style, stream, order, at, k);
    }
  }
}
