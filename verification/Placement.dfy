/**
 Where the generator may build: protected tiles, candidate orbits, and the three placement phases
 (walls, isolated pillars, shrubs) as functions of the draws.
 */
module Placement {
  import opened ArenaMap
  import opened Masks
  import opened Mirror
  import opened MirrorAxis
  import opened PathSearch
  import opened Prelude
  import opened Tiles

  datatype Style = Style(shrubClusters: nat, shrubRadius: int, shrubSoftRadius: int, shrubFillPercent: nat,
                         wallSegments: nat, isolatedPillars: nat)

  datatype Configuration = Configuration(
    maxAttempts: nat, bufferRadius: int, edgePadding: int, shortWall: int, longWall: int, longWallPercent: nat,
    wallSkipPercent: nat, wallSpacing: int, pillarSkipPercent: nat, pillarSpacing: int, styles: seq<Style>)

  /**
   The board as the placement phases see it: where building is allowed, which tiles keep the edge
   padding, and the mirror.
   */
  datatype Site = Site(width: nat, height: nat, coord: nat -> (int, int), free: nat -> bool, safe: nat -> bool,
                       mirror: nat -> nat) {
    function Count(): nat { Area(width, height) }

    ghost predicate Valid() {
      && Folds(mirror, Count())
      && (forall k: nat :: free(k) ==> k < Count())
      && (forall k: nat :: k < Count() ==> HasCoord(k))
    }

    ghost predicate HasCoord(k: nat) { InBoard(this, coord(k)) && CellNumber(this, coord(k)) == k }

    predicate AllSafe(tiles: set<nat>) { forall k <- tiles :: safe(k) }

    predicate AllFree(tiles: set<nat>) { forall k <- tiles :: free(k) }
  }

  predicate InBoard(site: Site, at: (int, int)) {
    0 <= at.0 < site.width && 0 <= at.1 < site.height
  }

  /** The number of a cell of the board. */
  function CellNumber(site: Site, at: (int, int)): (k: nat)
    requires InBoard(site, at)
    ensures k < site.Count()
  {
    TileIndexInRange(site.width, site.height, at.0, at.1);
    TileIndex(site.width, at.0, at.1)
  }

  /** Tiles to the nearest edge of the board. */
  function EdgeDistance(m: ArenaMap, k: nat): int
    requires m.widthTiles > 0
  {
    var at := CoordOf(m, k);
    Min(Min(at.0, m.widthTiles - 1 - at.0), Min(at.1, m.heightTiles - 1 - at.1))
  }

  /** Keeping the padding is staying that many columns and rows away from all four edges. */
  lemma PaddingIsMargin(m: ArenaMap, k: nat, padding: int)
    requires m.widthTiles > 0
    ensures EdgeDistance(m, k) >= padding
       <==> && padding <= ColumnOf(m.widthTiles, k) < m.widthTiles - padding
            && padding <= RowOf(m.widthTiles, k) < m.heightTiles - padding
  {
  }

  function BoardOf(m: ArenaMap, up: TieBreak): Board { Board(m.widthTiles, m.heightTiles, up) }

  /** The site a template offers: footprint tiles that are not protected, and the padding. */
  function SiteOf(m: ArenaMap, up: TieBreak, cfg: Configuration, protected: seq<bool>): Site
    requires m.widthTiles > 0 && m.heightTiles > 0
  {
    Site(m.widthTiles, m.heightTiles,
         (k: nat) => CoordOf(m, k),
         (k: nat) => k < |protected| && HasTile(m.footprintMask, k) && !protected[k],
         (k: nat) => EdgeDistance(m, k) >= cfg.edgePadding,
         MirrorMap(BoardOf(m, up)))
  }

  lemma SiteIsValid(m: ArenaMap, up: TieBreak, cfg: Configuration, protected: seq<bool>)
    requires m.widthTiles > 0 && m.heightTiles > 0 && |protected| == TileCount(m)
    ensures SiteOf(m, up, cfg, protected).Valid()
  {
    MirrorFolds(BoardOf(m, up));
    var site := SiteOf(m, up, cfg, protected);
    forall k: nat | k < site.Count() ensures site.HasCoord(k) {
      var row := RowOfTile(m, k);
      TileIndexJoins(m.widthTiles, k);
    }
  }

  // ----- protected tiles

  function Chebyshev(a: (int, int), b: (int, int)): int { Max(Abs(a.0 - b.0), Abs(a.1 - b.1)) }

  ghost predicate OnTile(m: ArenaMap, p: Point, k: nat)
    requires m.tileUnits > 0
  {
    TileIndexForCenter(m, p) == Ok(k)
  }

  /** Objective tiles and the tiles of anchors and features. */
  ghost predicate Special(m: ArenaMap, k: nat)
    requires m.tileUnits > 0
  {
    k < TileCount(m)
    && (|| HasTile(m.objectiveMask, k)
        || (exists p <- m.teamAAnchors + m.teamBAnchors :: OnTile(m, p, k))
        || (exists f <- m.features :: OnTile(m, f.center, k)))
  }

  /** Within `radius` columns and rows of a special tile. */
  ghost predicate NearSpecial(m: ArenaMap, radius: int, k: nat)
    requires m.tileUnits > 0 && m.widthTiles > 0
  {
    exists j: nat :: Special(m, j) && Chebyshev(CoordOf(m, j), CoordOf(m, k)) <= radius
  }

  // ----- candidate orbits

  datatype Candidates = Candidates(seen: set<nat>, orbits: seq<set<nat>>)

  /** One tile of the row-major scan for orbits. */
  function CollectStep(site: Site, c: Candidates, k: nat): Candidates
    requires site.Valid() && k < site.Count()
  {
    if k in c.seen || !site.free(k) then c else
      var orbit := Orbit(site.mirror, k);
      Candidates(c.seen + orbit, if site.AllFree(orbit) then c.orbits + [orbit] else c.orbits)
  }

  function CollectUpTo(site: Site, n: nat): Candidates
    requires site.Valid() && n <= site.Count()
  {
    if n == 0 then Candidates({}, []) else CollectStep(site, CollectUpTo(site, n - 1), n - 1)
  }

  function CandidateOrbits(site: Site): seq<set<nat>>
    requires site.Valid()
  {
    CollectUpTo(site, site.Count()).orbits
  }

  /** The orbit of `k` is wholly on free tiles. */
  ghost predicate Buildable(site: Site, k: nat)
    requires site.Valid()
  {
    k < site.Count() && site.AllFree(Orbit(site.mirror, k))
  }

  /** An orbit the phases may be given: the orbit of some tile, wholly free. */
  ghost predicate IsCandidate(site: Site, orbit: set<nat>)
    requires site.Valid()
  {
    exists k: nat :: Buildable(site, k) && orbit == Orbit(site.mirror, k)
  }

  ghost predicate AllCandidates(site: Site, orbits: seq<set<nat>>)
    requires site.Valid()
  {
    forall i :: 0 <= i < |orbits| ==> IsCandidate(site, orbits[i])
  }

  ghost predicate Covered(orbits: seq<set<nat>>, k: nat) { exists i :: 0 <= i < |orbits| && k in orbits[i] }

  /** What the scan keeps about its orbits: each wholly free, each with a tile not in the earlier ones. */
  ghost predicate CollectedOnlyFree(site: Site, c: Candidates)
    requires site.Valid()
  {
    && AllCandidates(site, c.orbits)
    && (forall i, j :: 0 <= i < j < |c.orbits| ==> c.orbits[i] != c.orbits[j])
    && (forall i :: 0 <= i < |c.orbits| ==> c.orbits[i] <= c.seen)
  }

  lemma {:induction false} CollectsOnlyFree(site: Site, n: nat)
    requires site.Valid() && n <= site.Count()
    ensures CollectedOnlyFree(site, CollectUpTo(site, n))
  {
    if n > 0 {
      CollectsOnlyFree(site, n - 1);
      NextOnlyFree(site, CollectUpTo(site, n - 1), n - 1);
    }
  }

  lemma NextOnlyFree(site: Site, c: Candidates, k: nat)
    requires site.Valid() && k < site.Count() && CollectedOnlyFree(site, c)
    ensures CollectedOnlyFree(site, CollectStep(site, c, k))
  {
    hide Orbit;
    var orbit := Orbit(site.mirror, k);
    if site.AllFree(orbit) {
      assert Buildable(site, k) && IsCandidate(site, orbit);
    }
  }

  /** What the scan keeps about tiles: the buildable ones among those passed or seen are covered. */
  ghost predicate CollectedAll(site: Site, c: Candidates, n: nat)
    requires site.Valid()
  {
    && (forall k :: 0 <= k < n && Buildable(site, k) ==> Covered(c.orbits, k))
    && (forall k :: k in c.seen && Buildable(site, k) ==> Covered(c.orbits, k))
  }

  lemma CoverGrows(orbits: seq<set<nat>>, orbit: set<nat>, k: nat)
    ensures Covered(orbits, k) ==> Covered(orbits + [orbit], k)
    ensures k in orbit ==> Covered(orbits + [orbit], k)
  {
    var more := orbits + [orbit];
    if Covered(orbits, k) {
      var i :| 0 <= i < |orbits| && k in orbits[i];
      assert more[i] == orbits[i];
    }
    assert more[|orbits|] == orbit;
  }

  lemma StepCovers(site: Site, c: Candidates, at: nat, k: nat)
    requires site.Valid() && at < site.Count() && Buildable(site, k)
    requires k <= at || k in CollectStep(site, c, at).seen
    requires k < at || k in c.seen ==> Covered(c.orbits, k)
    ensures Covered(CollectStep(site, c, at).orbits, k)
  {
    var orbit := Orbit(site.mirror, at);
    CoverGrows(c.orbits, orbit, k);
    if at !in c.seen && site.free(at) && k in orbit {
      OrbitOfMember(site.mirror, site.Count(), at, k);
      assert site.AllFree(orbit);
    }
  }

  lemma {:induction false} CollectsAll(site: Site, n: nat)
    requires site.Valid() && n <= site.Count()
    ensures CollectedAll(site, CollectUpTo(site, n), n)
  {
    hide CollectStep;
    if n > 0 {
      CollectsAll(site, n - 1);
      var c := CollectUpTo(site, n - 1);
      forall k: nat | Buildable(site, k) && (k < n || k in CollectUpTo(site, n).seen)
        ensures Covered(CollectUpTo(site, n).orbits, k)
      {
        StepCovers(site, c, n - 1, k);
      }
    }
  }

  /** The candidate orbits are free, listed once each, and cover exactly the buildable tiles. */
  lemma CandidateOrbitsCover(site: Site, k: nat)
    requires site.Valid()
    ensures AllCandidates(site, CandidateOrbits(site))
    ensures forall i, j :: 0 <= i < j < |CandidateOrbits(site)| ==> CandidateOrbits(site)[i] != CandidateOrbits(site)[j]
    ensures Buildable(site, k) <==> Covered(CandidateOrbits(site), k)
  {
    var orbits := CandidateOrbits(site);
    assert Buildable(site, k) ==> Covered(orbits, k) by { CollectsAll(site, site.Count()); }
    CollectsOnlyFree(site, site.Count());
    if Covered(orbits, k) {
      var i :| 0 <= i < |orbits| && k in orbits[i];
      assert IsCandidate(site, orbits[i]);
      CandidateIsClosed(site, orbits[i]);
      OrbitIsLeast(site.mirror, site.Count(), k, orbits[i]);
    }
  }

  lemma CandidateIsClosed(site: Site, orbit: set<nat>)
    requires site.Valid() && IsCandidate(site, orbit)
    ensures orbit != {} && site.AllFree(orbit) && ClosedUnder(site.mirror, site.Count(), orbit)
  {
    var start: nat :| Buildable(site, start) && orbit == Orbit(site.mirror, start);
    OrbitIsClosed(site.mirror, site.Count(), start);
  }

  // ----- filling tiles

  function Fill(layout: Layout, tiles: set<nat>, kind: ObstacleKind): (r: Layout)
    ensures |r| == |layout|
    ensures forall k :: 0 <= k < |r| ==> r[k] == if k in tiles then Some(kind) else layout[k]
  {
    seq(|layout|, k requires 0 <= k < |layout| => if k in tiles then Some(kind) else layout[k])
  }

  /** The mirror tile carries the same thing. */
  predicate Mirrored(site: Site, layout: Layout, k: nat)
    requires k < |layout|
  {
    site.mirror(k) < |layout| && layout[site.mirror(k)] == layout[k]
  }

  /** What every finished or half-finished layout satisfies. */
  ghost predicate Sound(site: Site, layout: Layout)
    requires site.Valid()
  {
    && |layout| == site.Count()
    && (forall k :: 0 <= k < |layout| && layout[k].Some? ==> site.free(k))
    && (forall k :: 0 <= k < |layout| && layout[k] == Some(Pillar) ==> site.safe(k))
    && (forall k :: 0 <= k < |layout| && layout[k].Some? ==> Mirrored(site, layout, k))
  }

  ghost predicate NoShrubs(layout: Layout) { forall k :: 0 <= k < |layout| ==> layout[k] != Some(Shrub) }

  lemma KindCases(o: Option<ObstacleKind>)
    ensures o == None || o == Some(Pillar) || o == Some(Shrub)
  {
    if o.Some? {
      match o.value { case Pillar => case Shrub => }
    }
  }

  /** Filling a closed set with one kind keeps the mirror, as long as nothing of another kind is overwritten. */
  lemma FillMirrors(site: Site, layout: Layout, tiles: set<nat>, kind: ObstacleKind)
    requires forall k :: 0 <= k < |layout| && layout[k].Some? ==> Mirrored(site, layout, k)
    requires ClosedUnder(site.mirror, |layout|, tiles)
    requires forall k :: k in tiles && k < |layout| ==> layout[k] == None || layout[k] == Some(kind)
    ensures var after := Fill(layout, tiles, kind);
            forall k :: 0 <= k < |after| && after[k].Some? ==> Mirrored(site, after, k)
  {
    var after := Fill(layout, tiles, kind);
    forall k | 0 <= k < |after| && after[k].Some? ensures Mirrored(site, after, k) {
      assert k in tiles || Mirrored(site, layout, k);
    }
  }

  lemma FillPillars(site: Site, layout: Layout, tiles: set<nat>)
    requires site.Valid() && Sound(site, layout) && NoShrubs(layout)
    requires ClosedUnder(site.mirror, site.Count(), tiles) && site.AllFree(tiles) && site.AllSafe(tiles)
    ensures Sound(site, Fill(layout, tiles, Pillar)) && NoShrubs(Fill(layout, tiles, Pillar))
  {
    forall k | 0 <= k < |layout| ensures layout[k] == None || layout[k] == Some(Pillar) {
      KindCases(layout[k]);
    }
    FillMirrors(site, layout, tiles, Pillar);
  }

  lemma FillShrubs(site: Site, layout: Layout, tiles: set<nat>)
    requires site.Valid() && Sound(site, layout)
    requires ClosedUnder(site.mirror, site.Count(), tiles) && site.AllFree(tiles)
    requires forall k <- tiles :: k < |layout| && layout[k] != Some(Pillar)
    ensures Sound(site, Fill(layout, tiles, Shrub))
  {
    forall k | k in tiles ensures layout[k] == None || layout[k] == Some(Shrub) {
      KindCases(layout[k]);
    }
    FillMirrors(site, layout, tiles, Shrub);
  }

  // ----- wall segments

  /** The tile `step` tiles from `start`. */
  function WallCell(start: (int, int), dir: (int, int), step: int): (int, int) {
    (start.0 + dir.0 * step, start.1 + dir.1 * step)
  }

  function CellOrbit(site: Site, at: (int, int)): set<nat>
    requires site.Valid() && InBoard(site, at)
  {
    Orbit(site.mirror, CellNumber(site, at))
  }

  /** The orbit of a cell is inside the padding, on free tiles, and carries nothing yet. */
  predicate CellFits(site: Site, layout: Layout, at: (int, int))
    requires site.Valid() && |layout| == site.Count()
  {
    InBoard(site, at) && forall k <- CellOrbit(site, at) :: site.safe(k) && site.free(k) && layout[k] == None
  }

  predicate WallFits(site: Site, layout: Layout, start: (int, int), dir: (int, int), length: int)
    requires site.Valid() && |layout| == site.Count()
  {
    forall step :: 0 <= step < length ==> CellFits(site, layout, WallCell(start, dir, step))
  }

  /** The tiles a fitting wall fills: the orbits of its cells. */
  function WallTiles(site: Site, layout: Layout, start: (int, int), dir: (int, int), length: int): set<nat>
    requires site.Valid() && |layout| == site.Count() && WallFits(site, layout, start, dir, length)
    decreases length
  {
    if length <= 0 then {} else
      assert CellFits(site, layout, WallCell(start, dir, length - 1));
      WallTiles(site, layout, start, dir, length - 1) + CellOrbit(site, WallCell(start, dir, length - 1))
  }

  /** Tiles a wall may fill: closed under the mirror, free, inside the padding, carrying nothing. */
  ghost predicate Fillable(site: Site, layout: Layout, tiles: set<nat>) {
    && ClosedUnder(site.mirror, site.Count(), tiles) && site.AllFree(tiles) && site.AllSafe(tiles)
    && forall k <- tiles :: k < |layout| && layout[k] == None
  }

  lemma FittingCellIsFillable(site: Site, layout: Layout, at: (int, int))
    requires site.Valid() && |layout| == site.Count() && CellFits(site, layout, at)
    ensures Fillable(site, layout, CellOrbit(site, at))
  {
    OrbitIsClosed(site.mirror, site.Count(), CellNumber(site, at));
  }

  lemma FillableUnion(site: Site, layout: Layout, a: set<nat>, b: set<nat>)
    requires Fillable(site, layout, a) && Fillable(site, layout, b)
    ensures Fillable(site, layout, a + b)
  {
  }

  lemma {:induction false} WallTilesAreSound(site: Site, layout: Layout, start: (int, int), dir: (int, int),
                                             length: int)
    requires site.Valid() && |layout| == site.Count() && WallFits(site, layout, start, dir, length)
    ensures Fillable(site, layout, WallTiles(site, layout, start, dir, length))
    decreases length
  {
    hide Fillable, CellOrbit;
    if length > 0 {
      var at := WallCell(start, dir, length - 1);
      assert CellFits(site, layout, at);
      WallTilesAreSound(site, layout, start, dir, length - 1);
      FittingCellIsFillable(site, layout, at);
      FillableUnion(site, layout, WallTiles(site, layout, start, dir, length - 1), CellOrbit(site, at));
    } else {
      NothingToFill(site, layout);
    }
  }

  lemma NothingToFill(site: Site, layout: Layout)
    ensures Fillable(site, layout, {})
  {
  }

  predicate IsCardinal(dir: (int, int)) { dir in CARDINAL_DIRECTIONS }

  const CARDINAL_DIRECTIONS: seq<(int, int)> := [(1, 0), (0, 1), (-1, 0), (0, -1)]

  function Stepped(at: (int, int), dir: (int, int)): (int, int) { (at.0 + dir.0, at.1 + dir.1) }

  /** A run starts at its start and goes on one step at a time, always the same way. */
  lemma RunIsStraight(start: (int, int), dir: (int, int), step: int)
    ensures WallCell(start, dir, 0) == start
    ensures WallCell(start, dir, step + 1) == Stepped(WallCell(start, dir, step), dir)
  {
  }

  /** The distance the spacings use counts single steps: no step changes it by more, and some step lessens it. */
  lemma ManhattanCountsSteps(a: (int, int), b: (int, int)) returns (towards: (int, int))
    ensures Manhattan(a, b) == 0 <==> a == b
    ensures Manhattan(a, b) == Manhattan(b, a)
    ensures forall dir :: IsCardinal(dir) ==>
      Manhattan(Stepped(a, dir), b) == Manhattan(a, b) - 1 || Manhattan(Stepped(a, dir), b) == Manhattan(a, b) + 1
    ensures a != b ==> IsCardinal(towards) && Manhattan(Stepped(a, towards), b) == Manhattan(a, b) - 1
  {
    towards := if a.0 < b.0 then (1, 0) else if a.0 > b.0 then (-1, 0) else if a.1 < b.1 then (0, 1) else (0, -1);
    assert towards in CARDINAL_DIRECTIONS;
  }

  /** The numbers of the cells themselves. */
  function WallCells(site: Site, layout: Layout, start: (int, int), dir: (int, int), length: int): set<nat>
    requires site.Valid() && |layout| == site.Count() && WallFits(site, layout, start, dir, length)
    decreases length
  {
    if length <= 0 then {} else
      var at := WallCell(start, dir, length - 1);
      assert CellFits(site, layout, at);
      WallCells(site, layout, start, dir, length - 1) + {CellNumber(site, at)}
  }

  lemma {:induction false} CellsAreDistinct(site: Site, layout: Layout, start: (int, int), dir: (int, int),
                                            length: int, step: int)
    requires site.Valid() && |layout| == site.Count() && WallFits(site, layout, start, dir, length)
    requires IsCardinal(dir) && length <= step && InBoard(site, WallCell(start, dir, step))
    ensures CellNumber(site, WallCell(start, dir, step)) !in WallCells(site, layout, start, dir, length)
    decreases length
  {
    if length > 0 {
      CellsAreDistinct(site, layout, start, dir, length - 1, step);
      var a, b := WallCell(start, dir, length - 1), WallCell(start, dir, step);
      assert CellFits(site, layout, a);
      TileIndexSplits(site.width, a.0, a.1);
      TileIndexSplits(site.width, b.0, b.1);
      assert a != b;
    }
  }

  /** The last cell of a fitting run is new, and its orbit holds it. */
  lemma LastCellIsNew(site: Site, layout: Layout, start: (int, int), dir: (int, int), length: nat)
    requires site.Valid() && |layout| == site.Count() && WallFits(site, layout, start, dir, length) && IsCardinal(dir)
    requires length > 0
    ensures WallFits(site, layout, start, dir, length - 1) && InBoard(site, WallCell(start, dir, length - 1))
    ensures var last := CellNumber(site, WallCell(start, dir, length - 1));
            && last in CellOrbit(site, WallCell(start, dir, length - 1))
            && last !in WallCells(site, layout, start, dir, length - 1)
  {
    hide WallCells, IsCardinal;
    assert CellFits(site, layout, WallCell(start, dir, length - 1));
    CellsAreDistinct(site, layout, start, dir, length - 1, length - 1);
  }

  /** A fitting wall always fills at least as many tiles as it is long, so the source's check cannot fire. */
  lemma {:induction false} WallIsLongEnough(site: Site, layout: Layout, start: (int, int), dir: (int, int), length: nat)
    requires site.Valid() && |layout| == site.Count() && WallFits(site, layout, start, dir, length) && IsCardinal(dir)
    ensures WallCells(site, layout, start, dir, length) <= WallTiles(site, layout, start, dir, length)
    ensures |WallCells(site, layout, start, dir, length)| == length <= |WallTiles(site, layout, start, dir, length)|
    decreases length
  {
    hide CellOrbit, CellFits, CellNumber, WallFits, IsCardinal, WallCell, InBoard;
    if length > 0 {
      LastCellIsNew(site, layout, start, dir, length);
      WallIsLongEnough(site, layout, start, dir, length - 1);
    }
    Cardinality(WallCells(site, layout, start, dir, length), WallTiles(site, layout, start, dir, length));
  }

  lemma {:induction false} Cardinality(a: set<nat>, b: set<nat>)
    requires a <= b
    ensures |a| <= |b|
    decreases |a|
  {
    if a != {} {
      var x :| x in a;
      Cardinality(a - {x}, b - {x});
    }
  }
}
