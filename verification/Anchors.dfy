/** Every pillar of a finished layout belongs to a wall or to an isolated pillar, anchored at a spot. */
module Anchors {
  import opened ArenaMap
  import opened MapRng
  import opened PathSearch
  import opened Phases
  import opened Placement
  import opened Prelude

  /** One thing the generator placed: a straight wall from the orbit's representative, or the orbit itself. */
  datatype Anchor = Wall(orbit: set<nat>, dir: (int, int), length: int) | Isolated(orbit: set<nat>)

  function AnchorSpot(site: Site, a: Anchor): Spot
    requires a.orbit != {}
  {
    Representative(site, a.orbit)
  }

  /** The orbits of the cells of a straight run. */
  function RunTiles(site: Site, start: Spot, dir: (int, int), length: int): set<nat>
    requires site.Valid()
    decreases length
  {
    if length <= 0 then {} else
      var at := WallCell(start, dir, length - 1);
      RunTiles(site, start, dir, length - 1) + if InBoard(site, at) then CellOrbit(site, at) else {}
  }

  /** The tiles an anchor puts pillars on. */
  function AnchorTiles(site: Site, a: Anchor): set<nat>
    requires site.Valid() && a.orbit != {}
  {
    match a
    case Wall(orbit, dir, length) => RunTiles(site, Representative(site, orbit), dir, length)
    case Isolated(orbit) => orbit
  }

  /**
   An anchor the configuration allows: it stands for a candidate orbit, its tiles are free and keep the
   padding, and a wall is a straight run over the board of one of the two configured lengths.
   */
  ghost predicate Legal(site: Site, cfg: Configuration, a: Anchor)
    requires site.Valid()
  {
    && a.orbit != {} && IsCandidate(site, a.orbit)
    && site.AllFree(AnchorTiles(site, a)) && site.AllSafe(AnchorTiles(site, a))
    && (a.Wall? ==>
          && IsCardinal(a.dir) && (a.length == cfg.shortWall || a.length == cfg.longWall)
          && forall step :: 0 <= step < a.length ==> InBoard(site, WallCell(AnchorSpot(site, a), a.dir, step)))
  }

  ghost predicate AllLegal(site: Site, cfg: Configuration, anchors: seq<Anchor>)
    requires site.Valid()
  {
    forall i :: 0 <= i < |anchors| ==> Legal(site, cfg, anchors[i])
  }

  /** Some anchor puts a pillar on tile `k`. */
  ghost predicate Held(site: Site, anchors: seq<Anchor>, k: nat)
    requires site.Valid()
  {
    exists i :: 0 <= i < |anchors| && anchors[i].orbit != {} && k in AnchorTiles(site, anchors[i])
  }

  /** The anchors are at the draft's spots, and the pillars of its layout are exactly theirs. */
  ghost predicate Explains(site: Site, cfg: Configuration, anchors: seq<Anchor>, d: Draft)
    requires site.Valid()
  {
    && AllLegal(site, cfg, anchors) && |anchors| == |d.spots|
    && (forall i :: 0 <= i < |anchors| ==> AnchorSpot(site, anchors[i]) == d.spots[i])
    && (forall k :: 0 <= k < |d.layout| ==> (d.layout[k] == Some(Pillar) <==> Held(site, anchors, k)))
  }

  /** The first `walls` anchors are walls and share no tile, the others are isolated. */
  ghost predicate WallsFirst(site: Site, anchors: seq<Anchor>, walls: nat)
    requires site.Valid()
  {
    && walls <= |anchors|
    && (forall i :: 0 <= i < |anchors| ==> anchors[i].orbit != {} && (anchors[i].Wall? <==> i < walls))
    && (forall i, j :: 0 <= i < j < walls ==> AnchorTiles(site, anchors[i]) !! AnchorTiles(site, anchors[j]))
  }

  lemma HeldByMore(site: Site, anchors: seq<Anchor>, a: Anchor, k: nat)
    requires site.Valid() && a.orbit != {}
    ensures Held(site, anchors + [a], k) <==> Held(site, anchors, k) || k in AnchorTiles(site, a)
  {
    hide AnchorTiles;
    var more := anchors + [a];
    assert more[|anchors|] == a;
    assert forall i :: 0 <= i < |anchors| ==> more[i] == anchors[i];
  }

  lemma AnchorAdded(site: Site, cfg: Configuration, anchors: seq<Anchor>, d: Draft, a: Anchor, remaining: nat,
                    position: nat)
    requires Fits(site, d) && Explains(site, cfg, anchors, d) && Legal(site, cfg, a)
    ensures Explains(site, cfg, anchors + [a],
                     Draft(Fill(d.layout, AnchorTiles(site, a), Pillar), d.spots + [AnchorSpot(site, a)],
                           remaining, position))
  {
    hide Held, Legal, AnchorTiles;
    LegalIsCandidate(site, cfg, a);
    var layout := Fill(d.layout, AnchorTiles(site, a), Pillar);
    forall k | 0 <= k < |layout| ensures layout[k] == Some(Pillar) <==> Held(site, anchors + [a], k) {
      HeldByMore(site, anchors, a, k);
    }
  }

  lemma LegalIsCandidate(site: Site, cfg: Configuration, a: Anchor)
    requires site.Valid() && Legal(site, cfg, a)
    ensures a.orbit != {} && IsCandidate(site, a.orbit)
  {
  }

  /** A run that fits fills the tiles of its cells. */
  lemma {:induction false} RunIsWall(site: Site, layout: Layout, start: Spot, dir: (int, int), length: int)
    requires site.Valid() && |layout| == site.Count() && WallFits(site, layout, start, dir, length)
    ensures RunTiles(site, start, dir, length) == WallTiles(site, layout, start, dir, length)
    decreases length
  {
    hide CellOrbit;
    if length > 0 {
      assert CellFits(site, layout, WallCell(start, dir, length - 1));
      RunIsWall(site, layout, start, dir, length - 1);
    }
  }

  /** Where a wall fits, it is a legal anchor on tiles that carry nothing. */
  lemma FittingWall(site: Site, cfg: Configuration, layout: Layout, orbit: set<nat>, dir: (int, int), length: int)
    requires site.Valid() && |layout| == site.Count() && IsCandidate(site, orbit) && orbit != {} && IsCardinal(dir)
    requires length == cfg.shortWall || length == cfg.longWall
    requires WallFits(site, layout, Representative(site, orbit), dir, length)
    ensures Legal(site, cfg, Wall(orbit, dir, length))
    ensures WallTiles(site, layout, Representative(site, orbit), dir, length)
      == AnchorTiles(site, Wall(orbit, dir, length))
    ensures forall k <- AnchorTiles(site, Wall(orbit, dir, length)) :: k < |layout| && layout[k] == None
  {
    hide WallTiles, RunTiles, IsCandidate, Representative;
    var start := Representative(site, orbit);
    RunIsWall(site, layout, start, dir, length);
    WallTilesAreSound(site, layout, start, dir, length);
    forall step | 0 <= step < length ensures InBoard(site, WallCell(start, dir, step)) {
      assert CellFits(site, layout, WallCell(start, dir, step));
    }
  }

  lemma {:induction false} PlacedWall(site: Site, cfg: Configuration, layout: Layout, orbit: set<nat>,
                                      dirs: seq<(int, int)>, preferred: int) returns (a: Anchor)
    requires site.Valid() && |layout| == site.Count() && IsCandidate(site, orbit) && orbit != {}
    requires preferred == cfg.shortWall || preferred == cfg.longWall
    requires forall dir <- dirs :: IsCardinal(dir)
    requires PlaceWall(site, cfg, layout, Representative(site, orbit), dirs, preferred).Some?
    ensures a.Wall? && a.orbit == orbit && Legal(site, cfg, a)
    ensures PlaceWall(site, cfg, layout, Representative(site, orbit), dirs, preferred)
         == Some(Fill(layout, AnchorTiles(site, a), Pillar))
    ensures forall k <- AnchorTiles(site, a) :: k < |layout| && layout[k] == None
    decreases |dirs|
  {
    hide IsCandidate, WallFits, WallTiles, AnchorTiles, Legal, IsCardinal;
    var start, dir := Representative(site, orbit), dirs[0];
    assert dir in dirs;
    if WallFits(site, layout, start, dir, preferred) {
      a := Wall(orbit, dir, preferred);
      FittingWall(site, cfg, layout, orbit, dir, preferred);
    } else if preferred == cfg.longWall && WallFits(site, layout, start, dir, cfg.shortWall) {
      a := Wall(orbit, dir, cfg.shortWall);
      FittingWall(site, cfg, layout, orbit, dir, cfg.shortWall);
    } else {
      assert forall d <- dirs[1..] :: d in dirs;
      a := PlacedWall(site, cfg, layout, orbit, dirs[1..], preferred);
    }
  }

  /** A new wall on empty tiles shares none with the walls before it. */
  lemma WallStaysApart(site: Site, cfg: Configuration, anchors: seq<Anchor>, d: Draft, a: Anchor)
    requires Fits(site, d) && Explains(site, cfg, anchors, d) && WallsFirst(site, anchors, |anchors|)
    requires a.Wall? && a.orbit != {} && forall k <- AnchorTiles(site, a) :: k < |d.layout| && d.layout[k] == None
    ensures WallsFirst(site, anchors + [a], |anchors| + 1)
  {
    hide AnchorTiles, Legal;
    var more := anchors + [a];
    forall i, j | 0 <= i < j < |more| ensures AnchorTiles(site, more[i]) !! AnchorTiles(site, more[j]) {
      if j == |anchors| {
        forall k | k in AnchorTiles(site, anchors[i]) ensures k !in AnchorTiles(site, a) {
          assert Held(site, anchors, k);
        }
      } else {
        assert more[i] == anchors[i] && more[j] == anchors[j];
      }
    }
  }

  lemma MovedExplains(site: Site, cfg: Configuration, anchors: seq<Anchor>, d: Draft, remaining: nat, position: nat)
    requires site.Valid() && Explains(site, cfg, anchors, d)
    ensures Explains(site, cfg, anchors, d.(remaining := remaining, position := position))
  {
    hide Legal, Held;
  }

  lemma WallStepAnchors(site: Site, cfg: Configuration, stream: Stream, d: Draft, orbit: set<nat>, anchors: seq<Anchor>)
    returns (more: seq<Anchor>)
    requires Fits(site, d) && IsCandidate(site, orbit) && orbit != {} && d.remaining > 0
    requires Explains(site, cfg, anchors, d) && WallsFirst(site, anchors, |anchors|)
    ensures Explains(site, cfg, more, WallStep(site, cfg, stream, d, orbit)) && WallsFirst(site, more, |more|)
  {
    hide Explains, WallsFirst, IsCandidate, Legal, PlaceWall, Shuffled, TooClose, RollAt, IsCardinal;
    more := anchors;
    MovedExplains(site, cfg, anchors, d, d.remaining, d.position + 1);
    MovedExplains(site, cfg, anchors, d, d.remaining, d.position + 5);
    var at := Representative(site, orbit);
    var dirs := Shuffled(CARDINAL_DIRECTIONS, stream, d.position + 1);
    var preferred := PreferredLength(cfg, stream, d.position + 4);
    ShuffledDirections(stream, d.position + 1);
    if !TooClose(d.spots, at, cfg.wallSpacing) && !RollAt(stream, d.position, cfg.wallSkipPercent)
       && PlaceWall(site, cfg, d.layout, at, dirs, preferred).Some? {
      var a := PlacedWall(site, cfg, d.layout, orbit, dirs, preferred);
      AnchorAdded(site, cfg, anchors, d, a, d.remaining - 1, d.position + 5);
      WallStaysApart(site, cfg, anchors, d, a);
      more := anchors + [a];
    }
  }

  lemma {:induction false} WallsAnchors(site: Site, cfg: Configuration, stream: Stream, orbits: seq<set<nat>>,
                                        d: Draft, anchors: seq<Anchor>)
    returns (more: seq<Anchor>)
    requires Fits(site, d) && AllCandidates(site, orbits) && NonEmptyOrbits(orbits)
    requires Explains(site, cfg, anchors, d) && WallsFirst(site, anchors, |anchors|)
    ensures Explains(site, cfg, more, Walls(site, cfg, stream, orbits, d)) && WallsFirst(site, more, |more|)
    decreases |orbits|
  {
    hide Explains, WallsFirst, IsCandidate, WallStep;
    more := anchors;
    if orbits != [] && d.remaining != 0 {
      more := WallStepAnchors(site, cfg, stream, d, orbits[0], anchors);
      more := WallsAnchors(site, cfg, stream, orbits[1..], WallStep(site, cfg, stream, d, orbits[0]), more);
    }
  }

  lemma IsolatedIsLegal(site: Site, cfg: Configuration, orbit: set<nat>)
    requires site.Valid() && IsCandidate(site, orbit) && orbit != {} && site.AllSafe(orbit)
    ensures Legal(site, cfg, Isolated(orbit))
  {
    CandidateIsClosed(site, orbit);
  }

  lemma IsolatedComesLast(site: Site, anchors: seq<Anchor>, walls: nat, orbit: set<nat>)
    requires site.Valid() && WallsFirst(site, anchors, walls) && orbit != {}
    ensures WallsFirst(site, anchors + [Isolated(orbit)], walls)
  {
    hide AnchorTiles;
    var more := anchors + [Isolated(orbit)];
    assert forall i :: 0 <= i < |anchors| ==> more[i] == anchors[i];
  }

  lemma PillarStepAnchors(site: Site, cfg: Configuration, stream: Stream, d: Draft, orbit: set<nat>,
                          anchors: seq<Anchor>, walls: nat)
    returns (more: seq<Anchor>)
    requires Fits(site, d) && IsCandidate(site, orbit) && orbit != {} && d.remaining > 0
    requires Explains(site, cfg, anchors, d) && WallsFirst(site, anchors, walls)
    ensures Explains(site, cfg, more, PillarStep(site, cfg, stream, d, orbit)) && WallsFirst(site, more, walls)
  {
    hide Explains, WallsFirst, IsCandidate, Legal, TooClose, RollAt;
    more := anchors;
    MovedExplains(site, cfg, anchors, d, d.remaining, d.position + 1);
    if site.AllSafe(orbit) && !TooClose(d.spots, Representative(site, orbit), cfg.pillarSpacing)
       && !RollAt(stream, d.position, cfg.pillarSkipPercent) {
      IsolatedIsLegal(site, cfg, orbit);
      AnchorAdded(site, cfg, anchors, d, Isolated(orbit), d.remaining - 1, d.position + 1);
      IsolatedComesLast(site, anchors, walls, orbit);
      more := anchors + [Isolated(orbit)];
    }
  }

  lemma {:induction false} PillarsAnchors(site: Site, cfg: Configuration, stream: Stream, orbits: seq<set<nat>>,
                                          d: Draft, anchors: seq<Anchor>, walls: nat) returns (more: seq<Anchor>)
    requires Fits(site, d) && AllCandidates(site, orbits) && NonEmptyOrbits(orbits)
    requires Explains(site, cfg, anchors, d) && WallsFirst(site, anchors, walls)
    ensures Explains(site, cfg, more, Pillars(site, cfg, stream, orbits, d)) && WallsFirst(site, more, walls)
    decreases |orbits|
  {
    hide Explains, WallsFirst, IsCandidate, PillarStep;
    more := anchors;
    if orbits != [] && d.remaining != 0 {
      more := PillarStepAnchors(site, cfg, stream, d, orbits[0], anchors, walls);
      more := PillarsAnchors(site, cfg, stream, orbits[1..], PillarStep(site, cfg, stream, d, orbits[0]), more, walls);
    }
  }

  lemma BlankExplains(site: Site, cfg: Configuration, remaining: nat, position: nat)
    requires site.Valid()
    ensures Explains(site, cfg, [], Draft(BlankLayout(site.Count()), [], remaining, position))
      && WallsFirst(site, [], 0)
  {
  }

  lemma ShrubsExplain(site: Site, cfg: Configuration, anchors: seq<Anchor>, before: Draft, after: Draft)
    requires Fits(site, before) && Explains(site, cfg, anchors, before)
    requires after.spots == before.spots && SamePillars(before.layout, after.layout)
    ensures Explains(site, cfg, anchors, after)
  {
    hide Legal, Held;
  }

  /**
   Every finished layout is explained: its pillars are exactly the tiles of walls and isolated pillars anchored
   at its spots, the walls first and pairwise apart.
   */
  lemma BuiltIsExplained(site: Site, cfg: Configuration, style: Style, stream: Stream, orbits: seq<set<nat>>,
                         position: nat)
    returns (anchors: seq<Anchor>)
    requires site.Valid() && AllCandidates(site, orbits) && NonEmptyOrbits(orbits) && PositiveWalls(cfg)
    ensures Explains(site, cfg, anchors, Built(site, cfg, style, stream, orbits, position))
    ensures WallsFirst(site, anchors, |AfterWalls(site, cfg, style, stream, orbits, position).spots|)
  {
    hide Explains, WallsFirst, Walls, Pillars, Shrubs, Sound, AllCandidates, NonEmptyOrbits, SpotsStand;
    var blank := Draft(BlankLayout(site.Count()), [], style.wallSegments, position);
    BlankExplains(site, cfg, style.wallSegments, position);
    anchors := WallsAnchors(site, cfg, stream, orbits, blank, []);
    var walls := AfterWalls(site, cfg, style, stream, orbits, position);
    ExplainedSpots(site, cfg, anchors, walls);
    var w := |anchors|;
    MovedExplains(site, cfg, anchors, walls, style.isolatedPillars, walls.position);
    anchors := PillarsAnchors(site, cfg, stream, orbits, walls.(remaining := style.isolatedPillars), anchors, w);
    var stones := AfterPillars(site, cfg, style, stream, orbits, position);
    StonesAreStony(site, cfg, style, stream, orbits, position);
    ShrubsKeep(site, style, ClusterCenters(site, style, orbits), stream, orbits, stones);
    ShrubsExplain(site, cfg, anchors, stones, Built(site, cfg, style, stream, orbits, position));
  }

  lemma ExplainedSpots(site: Site, cfg: Configuration, anchors: seq<Anchor>, d: Draft)
    requires site.Valid() && Explains(site, cfg, anchors, d)
    ensures |anchors| == |d.spots|
  {
  }

  lemma StonesAreStony(site: Site, cfg: Configuration, style: Style, stream: Stream, orbits: seq<set<nat>>,
                       position: nat)
    requires site.Valid() && AllCandidates(site, orbits) && NonEmptyOrbits(orbits) && PositiveWalls(cfg)
    ensures Stony(site, AfterPillars(site, cfg, style, stream, orbits, position))
  {
    hide Walls, Pillars, AllCandidates, NonEmptyOrbits;
    BlankIsStony(site, style.wallSegments, position);
    WallsKeep(site, cfg, stream, orbits, Draft(BlankLayout(site.Count()), [], style.wallSegments, position));
    var walls := AfterWalls(site, cfg, style, stream, orbits, position);
    PillarsKeep(site, cfg, stream, orbits, walls.(remaining := style.isolatedPillars), |walls.spots|);
  }

  lemma BlankIsStony(site: Site, remaining: nat, position: nat)
    requires site.Valid()
    ensures Stony(site, Draft(BlankLayout(site.Count()), [], remaining, position))
  {
  }

  /** Anchors hold tiles of the board only. */
  lemma HeldOnBoard(site: Site, cfg: Configuration, anchors: seq<Anchor>, k: nat)
    requires site.Valid() && AllLegal(site, cfg, anchors)
    ensures Held(site, anchors, k) ==> k < site.Count()
  {
    hide AnchorTiles, IsCandidate;
    if Held(site, anchors, k) {
      var i :| 0 <= i < |anchors| && anchors[i].orbit != {} && k in AnchorTiles(site, anchors[i]);
      assert Legal(site, cfg, anchors[i]);
      assert site.free(k);
    }
  }
}
