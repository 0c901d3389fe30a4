/** The three placement phases as functions of the shuffled orbits and the draws, and what they keep. */
module Phases {
  import opened ArenaMap
  import opened MapRng
  import opened Mirror
  import opened Ordering
  import opened PathSearch
  import opened Placement
  import opened Prelude

  type Spot = (int, int)

  /** A layout under construction: where something was anchored, how much is left, the next draw. */
  datatype Draft = Draft(layout: Layout, spots: seq<Spot>, remaining: nat, position: nat)

  ghost predicate Fits(site: Site, d: Draft) { site.Valid() && |d.layout| == site.Count() }

  /** An orbit stands for its smallest tile. */
  function Representative(site: Site, orbit: set<nat>): Spot
    requires orbit != {}
  {
    site.coord(Smallest(orbit))
  }

  predicate TooClose(spots: seq<Spot>, at: Spot, gap: int) {
    exists i :: 0 <= i < |spots| && Manhattan(at, spots[i]) <= gap
  }

  // ----- walls

  /** The first direction with room for the preferred length, or for the short one when the long was preferred. */
  function PlaceWall(site: Site, cfg: Configuration, layout: Layout, start: Spot, dirs: seq<(int, int)>,
                     preferred: int): (r: Option<Layout>)
    requires site.Valid() && |layout| == site.Count()
    ensures r.Some? ==> |r.value| == |layout|
  {
    if dirs == [] then None
    else if WallFits(site, layout, start, dirs[0], preferred) then
      Some(Fill(layout, WallTiles(site, layout, start, dirs[0], preferred), Pillar))
    else if preferred == cfg.longWall && WallFits(site, layout, start, dirs[0], cfg.shortWall) then
      Some(Fill(layout, WallTiles(site, layout, start, dirs[0], cfg.shortWall), Pillar))
    else PlaceWall(site, cfg, layout, start, dirs[1..], preferred)
  }

  function PreferredLength(cfg: Configuration, stream: Stream, position: nat): int {
    if RollAt(stream, position, cfg.longWallPercent) then cfg.longWall else cfg.shortWall
  }

  function WallStep(site: Site, cfg: Configuration, stream: Stream, d: Draft, orbit: set<nat>): (r: Draft)
    requires Fits(site, d) && orbit != {} && d.remaining > 0
    ensures Fits(site, r)
  {
    var at := Representative(site, orbit);
    if TooClose(d.spots, at, cfg.wallSpacing) then d
    else if RollAt(stream, d.position, cfg.wallSkipPercent) then d.(position := d.position + 1)
    else
      var dirs := Shuffled(CARDINAL_DIRECTIONS, stream, d.position + 1);
      match PlaceWall(site, cfg, d.layout, at, dirs, PreferredLength(cfg, stream, d.position + 4))
      case None => d.(position := d.position + 5)
      case Some(layout) => Draft(layout, d.spots + [at], d.remaining - 1, d.position + 5)
  }

  lemma ShuffledDirections(stream: Stream, position: nat)
    ensures forall dir <- Shuffled(CARDINAL_DIRECTIONS, stream, position) :: IsCardinal(dir)
  {
    ShufflePermutes(CARDINAL_DIRECTIONS, stream, position);
  }

  ghost predicate NonEmptyOrbits(orbits: seq<set<nat>>) { forall i :: 0 <= i < |orbits| ==> orbits[i] != {} }

  function Walls(site: Site, cfg: Configuration, stream: Stream, orbits: seq<set<nat>>, d: Draft): (r: Draft)
    requires Fits(site, d) && NonEmptyOrbits(orbits)
    ensures Fits(site, r)
  {
    if orbits == [] || d.remaining == 0 then d
    else Walls(site, cfg, stream, orbits[1..], WallStep(site, cfg, stream, d, orbits[0]))
  }

  // ----- isolated pillars

  function PillarStep(site: Site, cfg: Configuration, stream: Stream, d: Draft, orbit: set<nat>): (r: Draft)
    requires Fits(site, d) && orbit != {} && d.remaining > 0
    ensures Fits(site, r)
  {
    var at := Representative(site, orbit);
    if !site.AllSafe(orbit) || TooClose(d.spots, at, cfg.pillarSpacing) then d
    else if RollAt(stream, d.position, cfg.pillarSkipPercent) then d.(position := d.position + 1)
    else Draft(Fill(d.layout, orbit, Pillar), d.spots + [at], d.remaining - 1, d.position + 1)
  }

  function Pillars(site: Site, cfg: Configuration, stream: Stream, orbits: seq<set<nat>>, d: Draft): (r: Draft)
    requires Fits(site, d) && NonEmptyOrbits(orbits)
    ensures Fits(site, r)
  {
    if orbits == [] || d.remaining == 0 then d
    else Pillars(site, cfg, stream, orbits[1..], PillarStep(site, cfg, stream, d, orbits[0]))
  }

  // ----- shrubs

  function ClosestDistance(centers: seq<Spot>, at: Spot): (d: nat)
    requires centers != []
    ensures exists c <- centers :: d == Manhattan(at, c)
    ensures forall c <- centers :: d <= Manhattan(at, c)
  {
    assert centers == [centers[0]] + centers[1..];
    assert centers[0] in centers;
    if |centers| == 1 then Manhattan(at, centers[0])
    else
      var rest := ClosestDistance(centers[1..], at);
      if Manhattan(at, centers[0]) <= rest then Manhattan(at, centers[0]) else rest
  }

  /** Dense near a cluster centre, as configured around it, a quarter of that elsewhere. */
  function ShrubPercent(style: Style, centers: seq<Spot>, at: Spot): nat {
    if centers == [] then style.shrubFillPercent / 4 else
      var distance := ClosestDistance(centers, at);
      if distance <= style.shrubRadius then 90
      else if distance <= style.shrubSoftRadius then style.shrubFillPercent
      else style.shrubFillPercent / 4
  }

  predicate TouchesPillar(layout: Layout, orbit: set<nat>) {
    exists k <- orbit :: k < |layout| && layout[k] == Some(Pillar)
  }

  function ShrubStep(site: Site, style: Style, centers: seq<Spot>, stream: Stream, d: Draft, orbit: set<nat>)
    : (r: Draft)
    requires Fits(site, d) && orbit != {}
    ensures Fits(site, r)
  {
    if TouchesPillar(d.layout, orbit) then d
    else if !RollAt(stream, d.position, ShrubPercent(style, centers, Representative(site, orbit))) then
      d.(position := d.position + 1)
    else d.(layout := Fill(d.layout, orbit, Shrub), position := d.position + 1)
  }

  function Shrubs(site: Site, style: Style, centers: seq<Spot>, stream: Stream, orbits: seq<set<nat>>, d: Draft)
    : (r: Draft)
    requires Fits(site, d) && NonEmptyOrbits(orbits)
    ensures Fits(site, r)
  {
    if orbits == [] then d
    else Shrubs(site, style, centers, stream, orbits[1..], ShrubStep(site, style, centers, stream, d, orbits[0]))
  }

  // ----- the three in a row

  function BlankLayout(n: nat): (l: Layout)
    ensures |l| == n && forall k :: 0 <= k < n ==> l[k] == None
  {
    seq(n, _ => None)
  }

  function ClusterCenters(site: Site, style: Style, orbits: seq<set<nat>>): seq<Spot>
    requires NonEmptyOrbits(orbits)
  {
    var count := Min(style.shrubClusters, |orbits|);
    seq(count, i requires 0 <= i < count => Representative(site, orbits[i]))
  }

  function AfterWalls(site: Site, cfg: Configuration, style: Style, stream: Stream, orbits: seq<set<nat>>,
                      position: nat): (r: Draft)
    requires site.Valid() && NonEmptyOrbits(orbits)
    ensures Fits(site, r)
  {
    Walls(site, cfg, stream, orbits, Draft(BlankLayout(site.Count()), [], style.wallSegments, position))
  }

  function AfterPillars(site: Site, cfg: Configuration, style: Style, stream: Stream, orbits: seq<set<nat>>,
                        position: nat): (r: Draft)
    requires site.Valid() && NonEmptyOrbits(orbits)
    ensures Fits(site, r)
  {
    var d := AfterWalls(site, cfg, style, stream, orbits, position);
    Pillars(site, cfg, stream, orbits, d.(remaining := style.isolatedPillars))
  }

  /** `build_obstacle_layout`, with the spots it kept and the draws it used. */
  function Built(site: Site, cfg: Configuration, style: Style, stream: Stream, orbits: seq<set<nat>>, position: nat)
    : (r: Draft)
    requires site.Valid() && NonEmptyOrbits(orbits)
    ensures Fits(site, r)
  {
    Shrubs(site, style, ClusterCenters(site, style, orbits), stream, orbits,
           AfterPillars(site, cfg, style, stream, orbits, position))
  }

  // ----- what the phases keep

  /** Spots numbered `from` and up are more than `gap` away from every earlier spot. */
  ghost predicate SpacedFrom(spots: seq<Spot>, from: nat, gap: int) {
    forall i, j :: 0 <= i < j < |spots| && from <= j ==> Manhattan(spots[j], spots[i]) > gap
  }

  ghost predicate Stands(site: Site, layout: Layout, at: Spot) {
    InBoard(site, at) && CellNumber(site, at) < |layout| && layout[CellNumber(site, at)] == Some(Pillar)
  }

  ghost predicate SpotsStand(site: Site, d: Draft) {
    forall i :: 0 <= i < |d.spots| ==> Stands(site, d.layout, d.spots[i])
  }

  /** What holds of a draft as long as only pillars have been placed. */
  ghost predicate Stony(site: Site, d: Draft) {
    Fits(site, d) && Sound(site, d.layout) && NoShrubs(d.layout) && SpotsStand(site, d)
  }

  lemma RepresentativeInBoard(site: Site, orbit: set<nat>)
    requires site.Valid() && IsCandidate(site, orbit)
    ensures orbit != {} && InBoard(site, Representative(site, orbit))
    ensures CellNumber(site, Representative(site, orbit)) == Smallest(orbit)
  {
    CandidateIsClosed(site, orbit);
    assert site.HasCoord(Smallest(orbit));
  }

  lemma PillarFillKeeps(site: Site, d: Draft, tiles: set<nat>, at: Spot, position: nat)
    requires Stony(site, d) && d.remaining > 0 && InBoard(site, at) && CellNumber(site, at) in tiles
    requires ClosedUnder(site.mirror, site.Count(), tiles) && site.AllFree(tiles) && site.AllSafe(tiles)
    ensures Stony(site, Draft(Fill(d.layout, tiles, Pillar), d.spots + [at], d.remaining - 1, position))
  {
    var r := Draft(Fill(d.layout, tiles, Pillar), d.spots + [at], d.remaining - 1, position);
    FillPillars(site, d.layout, tiles);
    forall i | 0 <= i < |r.spots| ensures Stands(site, r.layout, r.spots[i]) {
      if i < |d.spots| {
        assert Stands(site, d.layout, d.spots[i]);
      }
    }
  }

  lemma {:induction false} StartIsFilled(site: Site, layout: Layout, start: Spot, dir: (int, int), length: int)
    requires site.Valid() && |layout| == site.Count() && WallFits(site, layout, start, dir, length) && length > 0
    ensures InBoard(site, start) && CellNumber(site, start) in WallTiles(site, layout, start, dir, length)
    decreases length
  {
    assert CellFits(site, layout, WallCell(start, dir, 0));
    assert WallCell(start, dir, 0) == start;
    if length > 1 {
      StartIsFilled(site, layout, start, dir, length - 1);
    }
  }

  lemma {:induction false} PlaceWallKeeps(site: Site, cfg: Configuration, d: Draft, start: Spot,
                                          dirs: seq<(int, int)>, preferred: int, position: nat)
    requires Stony(site, d) && d.remaining > 0 && preferred > 0 && cfg.shortWall > 0
    ensures var r := PlaceWall(site, cfg, d.layout, start, dirs, preferred);
            r.Some? ==> Stony(site, Draft(r.value, d.spots + [start], d.remaining - 1, position))
  {
    if dirs != [] {
      PlaceWallKeeps(site, cfg, d, start, dirs[1..], preferred, position);
      forall length | (length == preferred || length == cfg.shortWall)
        && WallFits(site, d.layout, start, dirs[0], length)
        ensures Stony(site, Draft(Fill(d.layout, WallTiles(site, d.layout, start, dirs[0], length), Pillar),
                                  d.spots + [start], d.remaining - 1, position))
      {
        WallTilesAreSound(site, d.layout, start, dirs[0], length);
        StartIsFilled(site, d.layout, start, dirs[0], length);
        PillarFillKeeps(site, d, WallTiles(site, d.layout, start, dirs[0], length), start, position);
      }
    }
  }

  ghost predicate PositiveWalls(cfg: Configuration) { cfg.shortWall > 0 && cfg.longWall > 0 }

  lemma SpotAdded(spots: seq<Spot>, at: Spot, from: nat, gap: int)
    requires SpacedFrom(spots, from, gap) && !TooClose(spots, at, gap)
    ensures SpacedFrom(spots + [at], from, gap)
  {
    var more := spots + [at];
    forall i, j | 0 <= i < j < |more| && from <= j ensures Manhattan(more[j], more[i]) > gap {
      if j < |spots| {
        assert Manhattan(spots[j], spots[i]) > gap;
      } else {
        assert more[i] == spots[i] && more[j] == at;
      }
    }
  }

  lemma WallStepKeeps(site: Site, cfg: Configuration, stream: Stream, d: Draft, orbit: set<nat>)
    requires Stony(site, d) && orbit != {} && d.remaining > 0 && PositiveWalls(cfg)
    requires SpacedFrom(d.spots, 0, cfg.wallSpacing)
    ensures var r := WallStep(site, cfg, stream, d, orbit);
            && Stony(site, r) && SpacedFrom(r.spots, 0, cfg.wallSpacing)
            && |r.spots| + r.remaining == |d.spots| + d.remaining
  {
    hide Stony, SpacedFrom, PlaceWall, Shuffled, TooClose, RollAt;
    var at := Representative(site, orbit);
    if !TooClose(d.spots, at, cfg.wallSpacing) {
      SpotAdded(d.spots, at, 0, cfg.wallSpacing);
      var dirs := Shuffled(CARDINAL_DIRECTIONS, stream, d.position + 1);
      var preferred := PreferredLength(cfg, stream, d.position + 4);
      PlaceWallKeeps(site, cfg, d, at, dirs, preferred, d.position + 5);
      Moved(site, d, d.position + 1);
      Moved(site, d, d.position + 5);
    }
  }

  /** Drawing from the stream changes nothing that stands. */
  lemma Moved(site: Site, d: Draft, position: nat)
    requires Stony(site, d)
    ensures Stony(site, d.(position := position))
  {
    forall i | 0 <= i < |d.spots| ensures Stands(site, d.layout, d.spots[i]) {
    }
  }

  lemma {:induction false} WallsKeep(site: Site, cfg: Configuration, stream: Stream, orbits: seq<set<nat>>, d: Draft)
    requires Stony(site, d) && AllCandidates(site, orbits) && NonEmptyOrbits(orbits) && PositiveWalls(cfg)
    requires SpacedFrom(d.spots, 0, cfg.wallSpacing)
    ensures var r := Walls(site, cfg, stream, orbits, d);
            && Stony(site, r) && SpacedFrom(r.spots, 0, cfg.wallSpacing)
            && |r.spots| + r.remaining == |d.spots| + d.remaining
    decreases |orbits|
  {
    if orbits != [] && d.remaining != 0 {
      WallStepKeeps(site, cfg, stream, d, orbits[0]);
      WallsKeep(site, cfg, stream, orbits[1..], WallStep(site, cfg, stream, d, orbits[0]));
    }
  }

  lemma PillarStepKeeps(site: Site, cfg: Configuration, stream: Stream, d: Draft, orbit: set<nat>, from: nat)
    requires Stony(site, d) && IsCandidate(site, orbit) && orbit != {} && d.remaining > 0
    requires from <= |d.spots| && SpacedFrom(d.spots, from, cfg.pillarSpacing)
    ensures var r := PillarStep(site, cfg, stream, d, orbit);
            && Stony(site, r) && SpacedFrom(r.spots, from, cfg.pillarSpacing)
            && |r.spots| + r.remaining == |d.spots| + d.remaining
            && d.spots <= r.spots
  {
    hide Stony, SpacedFrom, TooClose, RollAt, IsCandidate, Representative;
    var at := Representative(site, orbit);
    Moved(site, d, d.position + 1);
    if site.AllSafe(orbit) && !TooClose(d.spots, at, cfg.pillarSpacing) {
      SpotAdded(d.spots, at, from, cfg.pillarSpacing);
      PillarPlaced(site, d, orbit);
    }
  }

  lemma PillarPlaced(site: Site, d: Draft, orbit: set<nat>)
    requires Stony(site, d) && IsCandidate(site, orbit) && orbit != {} && d.remaining > 0 && site.AllSafe(orbit)
    ensures Stony(site, Draft(Fill(d.layout, orbit, Pillar), d.spots + [Representative(site, orbit)],
                              d.remaining - 1, d.position + 1))
  {
    CandidateIsClosed(site, orbit);
    RepresentativeInBoard(site, orbit);
    PillarFillKeeps(site, d, orbit, Representative(site, orbit), d.position + 1);
  }

  lemma {:induction false} PillarsKeep(site: Site, cfg: Configuration, stream: Stream, orbits: seq<set<nat>>,
                                       d: Draft, from: nat)
    requires Stony(site, d) && AllCandidates(site, orbits) && NonEmptyOrbits(orbits)
    requires from <= |d.spots| && SpacedFrom(d.spots, from, cfg.pillarSpacing)
    ensures var r := Pillars(site, cfg, stream, orbits, d);
            && Stony(site, r) && SpacedFrom(r.spots, from, cfg.pillarSpacing)
            && |r.spots| + r.remaining == |d.spots| + d.remaining
            && d.spots <= r.spots
    decreases |orbits|
  {
    if orbits != [] && d.remaining != 0 {
      PillarStepKeeps(site, cfg, stream, d, orbits[0], from);
      PillarsKeep(site, cfg, stream, orbits[1..], PillarStep(site, cfg, stream, d, orbits[0]), from);
    }
  }

  /** Shrubs change no pillar and no spot. */
  ghost predicate SamePillars(a: Layout, b: Layout) {
    |a| == |b| && forall k :: 0 <= k < |a| ==> (a[k] == Some(Pillar) <==> b[k] == Some(Pillar))
  }

  lemma ShrubsPlaced(site: Site, layout: Layout, orbit: set<nat>)
    requires site.Valid() && Sound(site, layout) && IsCandidate(site, orbit) && !TouchesPillar(layout, orbit)
    ensures Sound(site, Fill(layout, orbit, Shrub)) && SamePillars(layout, Fill(layout, orbit, Shrub))
  {
    CandidateIsClosed(site, orbit);
    forall k | k in orbit ensures k < |layout| && layout[k] != Some(Pillar) {
      assert site.free(k);
    }
    FillShrubs(site, layout, orbit);
  }

  lemma ShrubStepKeeps(site: Site, style: Style, centers: seq<Spot>, stream: Stream, d: Draft, orbit: set<nat>)
    requires Fits(site, d) && Sound(site, d.layout) && IsCandidate(site, orbit) && orbit != {}
    ensures var r := ShrubStep(site, style, centers, stream, d, orbit);
            Sound(site, r.layout) && r.spots == d.spots && SamePillars(d.layout, r.layout)
  {
    if TouchesPillar(d.layout, orbit)
      || !RollAt(stream, d.position, ShrubPercent(style, centers, Representative(site, orbit)))
    {
      assert ShrubStep(site, style, centers, stream, d, orbit).layout == d.layout;
    } else {
      ShrubsPlaced(site, d.layout, orbit);
    }
  }

  lemma {:induction false} ShrubsKeep(site: Site, style: Style, centers: seq<Spot>, stream: Stream,
                                      orbits: seq<set<nat>>, d: Draft)
    requires Fits(site, d) && Sound(site, d.layout) && AllCandidates(site, orbits) && NonEmptyOrbits(orbits)
    ensures var r := Shrubs(site, style, centers, stream, orbits, d);
            Sound(site, r.layout) && r.spots == d.spots && SamePillars(d.layout, r.layout)
    decreases |orbits|
  {
    if orbits != [] {
      ShrubStepKeeps(site, style, centers, stream, d, orbits[0]);
      ShrubsKeep(site, style, centers, stream, orbits[1..], ShrubStep(site, style, centers, stream, d, orbits[0]));
    }
  }

  /** Every finished layout is sound, and its spots stand on pillars and keep their distances. */
  lemma BuiltIsSafe(site: Site, cfg: Configuration, style: Style, stream: Stream, orbits: seq<set<nat>>, position: nat)
    requires site.Valid() && AllCandidates(site, orbits) && NonEmptyOrbits(orbits) && PositiveWalls(cfg)
    ensures var walls := AfterWalls(site, cfg, style, stream, orbits, position);
            var built := Built(site, cfg, style, stream, orbits, position);
            && Sound(site, built.layout) && SpotsStand(site, built)
            && walls.spots <= built.spots
            && SpacedFrom(walls.spots, 0, cfg.wallSpacing)
            && SpacedFrom(built.spots, |walls.spots|, cfg.pillarSpacing)
            && |walls.spots| <= style.wallSegments
            && |built.spots| <= |walls.spots| + style.isolatedPillars
  {
    var blank := Draft(BlankLayout(site.Count()), [], style.wallSegments, position);
    WallsKeep(site, cfg, stream, orbits, blank);
    var walls := AfterWalls(site, cfg, style, stream, orbits, position);
    PillarsKeep(site, cfg, stream, orbits, walls.(remaining := style.isolatedPillars), |walls.spots|);
    var stones := AfterPillars(site, cfg, style, stream, orbits, position);
    ShrubsKeep(site, style, ClusterCenters(site, style, orbits), stream, orbits, stones);
    var built := Built(site, cfg, style, stream, orbits, position);
    forall i | 0 <= i < |built.spots| ensures Stands(site, built.layout, built.spots[i]) {
      assert Stands(site, stones.layout, stones.spots[i]);
    }
  }

  /** Where the mirror undoes itself, as on a square board, a finished layout equals its mirror image. */
  lemma LayoutIsSymmetric(site: Site, layout: Layout, k: nat)
    requires site.Valid() && Sound(site, layout) && k < site.Count()
    requires site.mirror(site.mirror(k)) == k
    ensures site.mirror(k) < |layout| && layout[site.mirror(k)] == layout[k]
  {
    var image := site.mirror(k);
    assert FoldsAt(site.mirror, site.Count(), k);
    if layout[k].Some? {
      assert Mirrored(site, layout, k);
    } else if layout[image].Some? {
      assert Mirrored(site, layout, image);
    }
  }
}
