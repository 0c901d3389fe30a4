/** The generator itself: the in-place placement loops, the retries, and the map it emits. */
module MapGenerator {
  import opened ArenaMap
  import opened MapRng
  import opened Masks
  import opened Mirror
  import opened MirrorAxis
  import opened Ordering
  import opened PathSearch
  import opened Phases
  import opened Placement
  import opened Prelude
  import opened Tiles

  lemma SiteCount(m: ArenaMap, up: TieBreak, cfg: Configuration, protected: seq<bool>)
    requires m.widthTiles > 0 && m.heightTiles > 0
    ensures SiteOf(m, up, cfg, protected).Count() == TileCount(m)
  {
  }

  // ----- candidate orbits

  /** One tile of the scan. */
  method CollectTile(m: ArenaMap, up: TieBreak, cfg: Configuration, protected: seq<bool>, c: Candidates, column: nat,
                     row: nat)
    returns (next: Candidates)
    requires m.widthTiles > 0 && m.heightTiles > 0 && |protected| == TileCount(m)
    requires column < m.widthTiles && row < m.heightTiles && SiteOf(m, up, cfg, protected).Valid()
    ensures TileIndex(m.widthTiles, column, row) < TileCount(m)
    ensures next == CollectStep(SiteOf(m, up, cfg, protected), c, TileIndex(m.widthTiles, column, row))
  {
    hide MirrorMap, Orbit, EdgeDistance, HasTile;
    TileIndexInRange(m.widthTiles, m.heightTiles, column, row);
    var index := TileIndex(m.widthTiles, column, row);
    if index in c.seen || !HasTile(m.footprintMask, index) || protected[index] {
      return c;
    }
    var orbit, steps := MirrorOrbit(BoardOf(m, up), column, row);
    var free := forall k <- orbit :: k < |protected| && HasTile(m.footprintMask, k) && !protected[k];
    assert free == SiteOf(m, up, cfg, protected).AllFree(orbit);
    next := Candidates(c.seen + orbit, if free then c.orbits + [orbit] else c.orbits);
  }

  lemma CollectNext(site: Site, n: nat)
    requires site.Valid() && n < site.Count()
    ensures CollectUpTo(site, n + 1) == CollectStep(site, CollectUpTo(site, n), n)
  {
    hide CollectStep;
  }

  /** The row-major scan for orbits. */
  method CollectCandidateOrbits(m: ArenaMap, up: TieBreak, cfg: Configuration, protected: seq<bool>)
    returns (orbits: seq<set<nat>>)
    requires m.widthTiles > 0 && m.heightTiles > 0 && |protected| == TileCount(m)
    ensures SiteOf(m, up, cfg, protected).Valid()
    ensures orbits == CandidateOrbits(SiteOf(m, up, cfg, protected))
  {
    hide SiteOf, CollectStep;
    SiteIsValid(m, up, cfg, protected);
    SiteCount(m, up, cfg, protected);
    ghost var site := SiteOf(m, up, cfg, protected);
    var c := Candidates({}, []);
    for row := 0 to m.heightTiles
      invariant Area(m.widthTiles, row) <= TileCount(m)
      invariant c == CollectUpTo(site, Area(m.widthTiles, row))
    {
      AreaGrows(m.widthTiles, row + 1, m.heightTiles);
      for column := 0 to m.widthTiles
        invariant c == CollectUpTo(site, Area(m.widthTiles, row) + column)
      {
        CollectNext(site, Area(m.widthTiles, row) + column);
        c := CollectTile(m, up, cfg, protected, c, column, row);
      }
    }
    orbits := c.orbits;
  }

  // ----- walls

  /** `orbit_is_pillar_safe` and the three checks on each tile of the orbit of a cell. */
  method CellIsClear(m: ArenaMap, up: TieBreak, cfg: Configuration, protected: seq<bool>,
                     layout: array<Option<ObstacleKind>>, at: Spot)
    returns (clear: bool, orbit: set<nat>)
    requires m.widthTiles > 0 && m.heightTiles > 0 && |protected| == layout.Length == TileCount(m)
    requires SiteOf(m, up, cfg, protected).Valid()
    ensures clear <==> CellFits(SiteOf(m, up, cfg, protected), layout[..], at)
    ensures clear ==> orbit == CellOrbit(SiteOf(m, up, cfg, protected), at)
  {
    hide MirrorMap, Orbit, EdgeDistance, HasTile;
    ghost var site := SiteOf(m, up, cfg, protected);
    orbit := {};
    if !(0 <= at.0 < m.widthTiles && 0 <= at.1 < m.heightTiles) {
      return false, {};
    }
    var steps;
    orbit, steps := MirrorOrbit(BoardOf(m, up), at.0, at.1);
    assert orbit == CellOrbit(site, at);
    clear := forall k <- orbit ::
      EdgeDistance(m, k) >= cfg.edgePadding && k < |protected| && HasTile(m.footprintMask, k) && !protected[k]
        && layout[k].None?;
    assert clear <==> forall k <- orbit :: site.safe(k) && site.free(k) && layout[..][k] == None;
  }

  lemma WallGrows(site: Site, layout: Layout, start: Spot, dir: (int, int), n: nat)
    requires site.Valid() && |layout| == site.Count() && WallFits(site, layout, start, dir, n)
    requires CellFits(site, layout, WallCell(start, dir, n))
    ensures WallFits(site, layout, start, dir, n + 1)
    ensures WallTiles(site, layout, start, dir, n + 1)
         == WallTiles(site, layout, start, dir, n) + CellOrbit(site, WallCell(start, dir, n))
  {
    hide CellFits, CellOrbit;
  }

  method FillOrbit(layout: array<Option<ObstacleKind>>, orbit: set<nat>, kind: ObstacleKind)
    modifies layout
    ensures layout[..] == Fill(old(layout[..]), orbit, kind)
  {
    ghost var before := layout[..];
    forall k | 0 <= k < layout.Length && k in orbit {
      layout[k] := Some(kind);
    }
    assert layout[..] == Fill(before, orbit, kind);
  }

  /** The collecting half of `try_place_wall_segment`. */
  method GatherWall(m: ArenaMap, up: TieBreak, cfg: Configuration, protected: seq<bool>,
                    layout: array<Option<ObstacleKind>>, start: Spot, dir: (int, int), length: int)
    returns (fits: bool, indices: set<nat>)
    requires m.widthTiles > 0 && m.heightTiles > 0 && |protected| == layout.Length == TileCount(m)
    requires SiteOf(m, up, cfg, protected).Valid()
    ensures fits <==> WallFits(SiteOf(m, up, cfg, protected), layout[..], start, dir, length)
    ensures fits ==> indices == WallTiles(SiteOf(m, up, cfg, protected), layout[..], start, dir, length)
  {
    hide SiteOf, CellFits, CellOrbit, WallFits, WallTiles;
    SiteCount(m, up, cfg, protected);
    ghost var site, before := SiteOf(m, up, cfg, protected), layout[..];
    NoWall(site, before, start, dir, 0);
    if length <= 0 {
      NoWall(site, before, start, dir, length);
    }
    indices := {};
    var step: nat := 0;
    while step < length
      invariant step <= length || step == 0
      invariant WallFits(site, before, start, dir, step)
      invariant indices == WallTiles(site, before, start, dir, step)
      decreases length - step
    {
      var clear, orbit := CellIsClear(m, up, cfg, protected, layout, WallCell(start, dir, step));
      if !clear {
        WallBlocked(site, before, start, dir, step, length);
        return false, {};
      }
      WallGrows(site, before, start, dir, step);
      indices := indices + orbit;
      step := step + 1;
    }
    fits := true;
  }

  lemma NoWall(site: Site, layout: Layout, start: Spot, dir: (int, int), length: int)
    requires site.Valid() && |layout| == site.Count() && length <= 0
    ensures WallFits(site, layout, start, dir, length) && WallTiles(site, layout, start, dir, length) == {}
  {
  }

  lemma WallBlocked(site: Site, layout: Layout, start: Spot, dir: (int, int), step: nat, length: int)
    requires site.Valid() && |layout| == site.Count() && step < length
    requires !CellFits(site, layout, WallCell(start, dir, step))
    ensures !WallFits(site, layout, start, dir, length)
  {
    hide CellFits;
  }

  /** `try_place_wall_segment`: all the orbits of a straight run, or nothing. Its check for too few tiles is dead. */
  method TryPlaceWallSegment(m: ArenaMap, up: TieBreak, cfg: Configuration, protected: seq<bool>,
                             layout: array<Option<ObstacleKind>>, start: Spot, dir: (int, int), length: int)
    returns (placed: bool)
    requires m.widthTiles > 0 && m.heightTiles > 0 && |protected| == layout.Length == TileCount(m)
    requires SiteOf(m, up, cfg, protected).Valid() && IsCardinal(dir)
    modifies layout
    ensures placed <==> WallFits(SiteOf(m, up, cfg, protected), old(layout[..]), start, dir, length)
    ensures layout[..] == if placed
                          then Fill(old(layout[..]),
                            WallTiles(SiteOf(m, up, cfg, protected), old(layout[..]), start, dir, length), Pillar)
                          else old(layout[..])
  {
    hide SiteOf, WallFits, WallTiles;
    SiteCount(m, up, cfg, protected);
    ghost var site, before := SiteOf(m, up, cfg, protected), layout[..];
    var fits, indices := GatherWall(m, up, cfg, protected, layout, start, dir, length);
    if !fits {
      return false;
    }
    if length >= 0 {
      WallIsLongEnough(site, before, start, dir, length);
    }
    if |indices| < length {
      assert false;
    }
    FillOrbit(layout, indices, Pillar);
    placed := true;
  }

  /** The direction loop: the first direction that takes a wall. */
  method TryDirections(m: ArenaMap, up: TieBreak, cfg: Configuration, protected: seq<bool>,
                       layout: array<Option<ObstacleKind>>, start: Spot, dirs: seq<(int, int)>, preferred: int)
    returns (placed: bool)
    requires m.widthTiles > 0 && m.heightTiles > 0 && |protected| == layout.Length == TileCount(m)
    requires SiteOf(m, up, cfg, protected).Valid() && forall dir <- dirs :: IsCardinal(dir)
    modifies layout
    ensures var r := PlaceWall(SiteOf(m, up, cfg, protected), cfg, old(layout[..]), start, dirs, preferred);
            placed == r.Some? && layout[..] == if placed then r.value else old(layout[..])
  {
    hide SiteOf, WallFits, WallTiles;
    SiteCount(m, up, cfg, protected);
    ghost var site := SiteOf(m, up, cfg, protected);
    for i := 0 to |dirs|
      invariant layout[..] == old(layout[..])
      invariant PlaceWall(site, cfg, layout[..], start, dirs[i..], preferred)
             == PlaceWall(site, cfg, layout[..], start, dirs, preferred)
    {
      assert dirs[i..][0] == dirs[i] && dirs[i..][1..] == dirs[i + 1..];
      placed := TryPlaceWallSegment(m, up, cfg, protected, layout, start, dirs[i], preferred);
      if !placed && preferred == cfg.longWall {
        placed := TryPlaceWallSegment(m, up, cfg, protected, layout, start, dirs[i], cfg.shortWall);
      }
      if placed {
        return;
      }
    }
    placed := false;
  }

  /** One round of the wall loop. */
  method PlaceOneWall(m: ArenaMap, up: TieBreak, cfg: Configuration, protected: seq<bool>, rng: MapRng,
                      layout: array<Option<ObstacleKind>>, spots: seq<Spot>, at: Spot)
    returns (placed: bool)
    requires m.widthTiles > 0 && m.heightTiles > 0 && |protected| == layout.Length == TileCount(m)
    requires SiteOf(m, up, cfg, protected).Valid()
    modifies layout, rng
    ensures placed ==>
      !TooClose(spots, at, cfg.wallSpacing) && !RollAt(rng.stream, old(rng.position), cfg.wallSkipPercent)
    ensures if TooClose(spots, at, cfg.wallSpacing)
            then !placed && layout[..] == old(layout[..]) && rng.position == old(rng.position)
            else if RollAt(rng.stream, old(rng.position), cfg.wallSkipPercent) then
              !placed && layout[..] == old(layout[..]) && rng.position == old(rng.position) + 1
            else
              && rng.position == old(rng.position) + 5
              && var r := PlaceWall(SiteOf(m, up, cfg, protected), cfg, old(layout[..]), at,
                                    Shuffled(CARDINAL_DIRECTIONS, rng.stream, old(rng.position) + 1),
                                    PreferredLength(cfg, rng.stream, old(rng.position) + 4));
                 placed == r.Some? && layout[..] == if placed then r.value else old(layout[..])
  {
    hide SiteOf, PlaceWall, TooClose;
    SiteCount(m, up, cfg, protected);
    if TooClose(spots, at, cfg.wallSpacing) {
      return false;
    }
    var skip := rng.RollPercent(cfg.wallSkipPercent);
    if skip {
      return false;
    }
    var directions := new (int, int)[4](i requires 0 <= i < 4 => CARDINAL_DIRECTIONS[i]);
    assert directions[..] == CARDINAL_DIRECTIONS;
    Shuffle(directions, rng);
    ShuffledDirections(rng.stream, old(rng.position) + 1);
    var long := rng.RollPercent(cfg.longWallPercent);
    var preferred := if long then cfg.longWall else cfg.shortWall;
    placed := TryDirections(m, up, cfg, protected, layout, at, directions[..], preferred);
  }

  /** The wall loop of `build_obstacle_layout`. */
  method PlaceWalls(m: ArenaMap, up: TieBreak, cfg: Configuration, protected: seq<bool>, rng: MapRng,
                    layout: array<Option<ObstacleKind>>, orbits: seq<set<nat>>, count: nat)
    returns (spots: seq<Spot>)
    requires m.widthTiles > 0 && m.heightTiles > 0 && |protected| == layout.Length == TileCount(m)
    requires SiteOf(m, up, cfg, protected).Valid() && NonEmptyOrbits(orbits)
    modifies layout, rng
    ensures var d := Walls(SiteOf(m, up, cfg, protected), cfg, rng.stream, orbits,
                           Draft(old(layout[..]), [], count, old(rng.position)));
            layout[..] == d.layout && spots == d.spots && rng.position == d.position
  {
    hide PlaceWall, TooClose, RollAt, Representative;
    ghost var site := SiteOf(m, up, cfg, protected);
    ghost var whole := Walls(site, cfg, rng.stream, orbits, Draft(layout[..], [], count, rng.position));
    spots := [];
    var remaining := count;
    for i := 0 to |orbits|
      invariant Walls(site, cfg, rng.stream, orbits[i..], Draft(layout[..], spots, remaining, rng.position)) == whole
    {
      if remaining == 0 {
        return;
      }
      assert orbits[i..][0] == orbits[i] && orbits[i..][1..] == orbits[i + 1..];
      var at := SpotOf(m, up, cfg, protected, orbits[i]);
      ghost var before := Draft(layout[..], spots, remaining, rng.position);
      var placed := PlaceOneWall(m, up, cfg, protected, rng, layout, spots, at);
      if placed {
        spots := spots + [at];
        remaining := remaining - 1;
      }
      assert Draft(layout[..], spots, remaining, rng.position) == WallStep(site, cfg, rng.stream, before, orbits[i]);
    }
    assert orbits[|orbits|..] == [];
  }

  /** `index_to_coord` of the smallest tile. */
  method SpotOf(m: ArenaMap, ghost up: TieBreak, ghost cfg: Configuration, ghost protected: seq<bool>, orbit: set<nat>)
    returns (at: Spot)
    requires m.widthTiles > 0 && m.heightTiles > 0 && orbit != {}
    ensures at == Representative(SiteOf(m, up, cfg, protected), orbit)
  {
    at := CoordOf(m, Smallest(orbit));
  }

  // ----- pillars and shrubs

  /** The isolated-pillar loop of `build_obstacle_layout`; it starts from the walls' spots. */
  method PlacePillars(m: ArenaMap, up: TieBreak, cfg: Configuration, protected: seq<bool>, rng: MapRng,
                      layout: array<Option<ObstacleKind>>, orbits: seq<set<nat>>, wallSpots: seq<Spot>, count: nat)
    returns (spots: seq<Spot>)
    requires m.widthTiles > 0 && m.heightTiles > 0 && |protected| == layout.Length == TileCount(m)
    requires SiteOf(m, up, cfg, protected).Valid() && NonEmptyOrbits(orbits)
    modifies layout, rng
    ensures var d := Pillars(SiteOf(m, up, cfg, protected), cfg, rng.stream, orbits,
                             Draft(old(layout[..]), wallSpots, count, old(rng.position)));
            layout[..] == d.layout && spots == d.spots && rng.position == d.position
  {
    hide TooClose, RollAt, Representative, EdgeDistance, MirrorMap;
    ghost var site := SiteOf(m, up, cfg, protected);
    ghost var whole := Pillars(site, cfg, rng.stream, orbits, Draft(layout[..], wallSpots, count, rng.position));
    spots := wallSpots;
    var remaining := count;
    for i := 0 to |orbits|
      invariant Pillars(site, cfg, rng.stream, orbits[i..], Draft(layout[..], spots, remaining, rng.position)) == whole
    {
      if remaining == 0 {
        return;
      }
      assert orbits[i..][0] == orbits[i] && orbits[i..][1..] == orbits[i + 1..];
      var at := SpotOf(m, up, cfg, protected, orbits[i]);
      ghost var before := Draft(layout[..], spots, remaining, rng.position);
      var safe := forall k <- orbits[i] :: EdgeDistance(m, k) >= cfg.edgePadding;
      assert safe == site.AllSafe(orbits[i]);
      if safe && !TooClose(spots, at, cfg.pillarSpacing) {
        var skip := rng.RollPercent(cfg.pillarSkipPercent);
        if !skip {
          FillOrbit(layout, orbits[i], Pillar);
          spots := spots + [at];
          remaining := remaining - 1;
        }
      }
      assert Draft(layout[..], spots, remaining, rng.position) == PillarStep(site, cfg, rng.stream, before, orbits[i]);
    }
    assert orbits[|orbits|..] == [];
  }

  /** The shrub loop of `build_obstacle_layout`. */
  method PlaceShrubs(m: ArenaMap, up: TieBreak, cfg: Configuration, protected: seq<bool>, style: Style,
                     centers: seq<Spot>, rng: MapRng, layout: array<Option<ObstacleKind>>,
                     orbits: seq<set<nat>>, ghost spots: seq<Spot>, ghost remaining: nat)
    requires m.widthTiles > 0 && m.heightTiles > 0 && |protected| == layout.Length == TileCount(m)
    requires SiteOf(m, up, cfg, protected).Valid() && NonEmptyOrbits(orbits)
    modifies layout, rng
    ensures var d := Shrubs(SiteOf(m, up, cfg, protected), style, centers, rng.stream, orbits,
                            Draft(old(layout[..]), spots, remaining, old(rng.position)));
            layout[..] == d.layout && rng.position == d.position
  {
    hide RollAt, Representative, SiteOf, ShrubPercent, TouchesPillar;
    SiteCount(m, up, cfg, protected);
    ghost var site := SiteOf(m, up, cfg, protected);
    ghost var whole :=
      Shrubs(site, style, centers, rng.stream, orbits, Draft(layout[..], spots, remaining, rng.position));
    for i := 0 to |orbits|
      invariant Shrubs(site, style, centers, rng.stream, orbits[i..],
        Draft(layout[..], spots, remaining, rng.position)) == whole
    {
      assert orbits[i..][0] == orbits[i] && orbits[i..][1..] == orbits[i + 1..];
      ghost var before := Draft(layout[..], spots, remaining, rng.position);
      if !TouchesPillar(layout[..], orbits[i]) {
        var at := SpotOf(m, up, cfg, protected, orbits[i]);
        var grow := rng.RollPercent(ShrubPercent(style, centers, at));
        if grow {
          FillOrbit(layout, orbits[i], Shrub);
        }
      }
      assert Draft(layout[..], spots, remaining, rng.position)
        == ShrubStep(site, style, centers, rng.stream, before, orbits[i]);
    }
    assert orbits[|orbits|..] == [];
  }

  method BuildObstacleLayout(m: ArenaMap, up: TieBreak, cfg: Configuration, protected: seq<bool>, style: Style,
                             rng: MapRng, orbits: seq<set<nat>>)
    returns (layout: Layout)
    requires m.widthTiles > 0 && m.heightTiles > 0 && |protected| == TileCount(m)
    requires SiteOf(m, up, cfg, protected).Valid() && NonEmptyOrbits(orbits)
    modifies rng
    ensures var d := Built(SiteOf(m, up, cfg, protected), cfg, style, rng.stream, orbits, old(rng.position));
            layout == d.layout && rng.position == d.position
  {
    hide Walls, Pillars, Shrubs, MirrorMap, EdgeDistance;
    var buffer := new Option<ObstacleKind>[TileCount(m)](_ => None);
    assert buffer[..] == BlankLayout(TileCount(m));
    var clusterCount := Min(style.shrubClusters, |orbits|);
    var centers := seq(clusterCount, i requires 0 <= i < clusterCount => CoordOf(m, Smallest(orbits[i])));
    assert centers == ClusterCenters(SiteOf(m, up, cfg, protected), style, orbits);
    var wallSpots := PlaceWalls(m, up, cfg, protected, rng, buffer, orbits, style.wallSegments);
    ghost var walls := AfterWalls(SiteOf(m, up, cfg, protected), cfg, style, rng.stream, orbits, old(rng.position));
    var spots := PlacePillars(m, up, cfg, protected, rng, buffer, orbits, wallSpots, style.isolatedPillars);
    ghost var stones := AfterPillars(SiteOf(m, up, cfg, protected), cfg, style, rng.stream, orbits, old(rng.position));
    PlaceShrubs(m, up, cfg, protected, style, centers, rng, buffer, orbits, spots, stones.remaining);
    layout := buffer[..];
  }
}
