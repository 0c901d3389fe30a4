/** What the placement phases do place: who takes a wall, a pillar or a shrub, on which draw, and when they stop. */
module Progress {
  import opened Anchors
  import opened ArenaMap
  import opened MapRng
  import opened PathSearch
  import opened Phases
  import opened Placement
  import opened Prelude

  // ----- what being close and touching a pillar are

  lemma CloseMeans(spots: seq<Spot>, at: Spot, gap: int)
    ensures TooClose(spots, at, gap) <==> exists s <- spots :: Manhattan(at, s) <= gap
  {
    hide Manhattan;
    if s :| s in spots && Manhattan(at, s) <= gap {
      var i :| 0 <= i < |spots| && spots[i] == s;
    }
  }

  /** No tile of the orbit carries a pillar. */
  ghost predicate Untouched(layout: Layout, orbit: set<nat>) {
    forall k <- orbit :: k < |layout| ==> layout[k] != Some(Pillar)
  }

  lemma UntouchedMeans(layout: Layout, orbit: set<nat>)
    ensures Untouched(layout, orbit) <==> !TouchesPillar(layout, orbit)
  {
  }

  // ----- what a run of cells is

  /** A straight run holds the orbits of its cells and nothing else. */
  lemma {:induction false} RunHolds(site: Site, start: Spot, dir: (int, int), length: int, k: nat)
    requires site.Valid()
    ensures k in RunTiles(site, start, dir, length)
       <==> exists step :: 0 <= step < length && InBoard(site, WallCell(start, dir, step))
                           && k in CellOrbit(site, WallCell(start, dir, step))
    decreases length
  {
    hide CellOrbit, WallCell, InBoard;
    if length > 0 {
      RunHolds(site, start, dir, length - 1, k);
    }
  }

  // ----- the direction loop

  /** A wall of the preferred length fits that way, or a short one where a long one was preferred. */
  predicate HasRoom(site: Site, cfg: Configuration, layout: Layout, start: Spot, preferred: int, dir: (int, int))
    requires site.Valid() && |layout| == site.Count()
  {
    WallFits(site, layout, start, dir, preferred)
    || (preferred == cfg.longWall && WallFits(site, layout, start, dir, cfg.shortWall))
  }

  ghost predicate FirstWithRoom(site: Site, cfg: Configuration, layout: Layout, start: Spot, preferred: int,
                                dirs: seq<(int, int)>, i: int)
    requires site.Valid() && |layout| == site.Count()
  {
    && 0 <= i < |dirs| && HasRoom(site, cfg, layout, start, preferred, dirs[i])
    && forall j :: 0 <= j < i ==> !HasRoom(site, cfg, layout, start, preferred, dirs[j])
  }

  /** The tiles of the longest configured run, up to the preferred length, that fits in this direction. */
  ghost function ChosenRun(site: Site, cfg: Configuration, layout: Layout, start: Spot, preferred: int,
                           dir: (int, int)): set<nat>
    requires site.Valid() && |layout| == site.Count()
  {
    RunTiles(site, start, dir, if WallFits(site, layout, start, dir, preferred) then preferred else cfg.shortWall)
  }

  /** A wall goes the first way that has room, and is refused only when no direction has. */
  lemma {:induction false} WallGoesFirstWay(site: Site, cfg: Configuration, layout: Layout, start: Spot,
                                            dirs: seq<(int, int)>, preferred: int)
    returns (first: int)
    requires site.Valid() && |layout| == site.Count()
    ensures var r := PlaceWall(site, cfg, layout, start, dirs, preferred);
            if r.None? then forall dir <- dirs :: !HasRoom(site, cfg, layout, start, preferred, dir)
            else FirstWithRoom(site, cfg, layout, start, preferred, dirs, first)
                 && r == Some(Fill(layout, ChosenRun(site, cfg, layout, start, preferred, dirs[first]), Pillar))
    decreases |dirs|
  {
    hide WallFits, WallTiles, RunTiles;
    first := 0;
    if dirs != [] {
      if WallFits(site, layout, start, dirs[0], preferred) {
        RunIsWall(site, layout, start, dirs[0], preferred);
      } else if preferred == cfg.longWall && WallFits(site, layout, start, dirs[0], cfg.shortWall) {
        RunIsWall(site, layout, start, dirs[0], cfg.shortWall);
      } else {
        var rest := WallGoesFirstWay(site, cfg, layout, start, dirs[1..], preferred);
        first := rest + 1;
      }
    }
  }

  // ----- walls, orbit by orbit

  lemma {:induction false} WallsOneMore(site: Site, cfg: Configuration, stream: Stream, orbits: seq<set<nat>>,
                                        orbit: set<nat>, d: Draft)
    requires Fits(site, d) && NonEmptyOrbits(orbits) && orbit != {}
    ensures NonEmptyOrbits(orbits + [orbit])
    ensures var r := Walls(site, cfg, stream, orbits, d);
            Walls(site, cfg, stream, orbits + [orbit], d)
            == if r.remaining == 0 then r else WallStep(site, cfg, stream, r, orbit)
    decreases |orbits|
  {
    hide WallStep;
    if orbits == [] {
      assert ([orbit])[1..] == [] && orbits + [orbit] == [orbit];
    } else {
      assert (orbits + [orbit])[1..] == orbits[1..] + [orbit] && (orbits + [orbit])[0] == orbits[0];
      if d.remaining != 0 {
        WallsOneMore(site, cfg, stream, orbits[1..], orbit, WallStep(site, cfg, stream, d, orbits[0]));
      }
    }
  }

  /** What a round makes of a wall that was neither too close nor skipped: five draws, and the first way with room. */
  ghost predicate WallTried(site: Site, cfg: Configuration, stream: Stream, before: Draft, after: Draft, at: Spot)
    requires Fits(site, before)
  {
    var dirs := Shuffled(CARDINAL_DIRECTIONS, stream, before.position + 1);
    var preferred := if RollAt(stream, before.position + 4, cfg.longWallPercent) then cfg.longWall else cfg.shortWall;
    || (&& (forall dir <- CARDINAL_DIRECTIONS :: !HasRoom(site, cfg, before.layout, at, preferred, dir))
        && after == before.(position := before.position + 5))
    || (exists i :: FirstWithRoom(site, cfg, before.layout, at, preferred, dirs, i)
         && after.layout == Fill(before.layout, ChosenRun(site, cfg, before.layout, at, preferred, dirs[i]), Pillar)
         && after.spots == before.spots + [at] && after.remaining + 1 == before.remaining
         && after.position == before.position + 5)
  }

  /** What the `i`-th round of the wall loop does, whatever the rounds before it did. */
  lemma WallRound(site: Site, cfg: Configuration, stream: Stream, orbits: seq<set<nat>>, d: Draft, i: nat)
    requires Fits(site, d) && NonEmptyOrbits(orbits) && i < |orbits|
    ensures var before := Walls(site, cfg, stream, orbits[..i], d);
            var after := Walls(site, cfg, stream, orbits[..i + 1], d);
            var at := Representative(site, orbits[i]);
            if before.remaining == 0 || (exists s <- before.spots :: Manhattan(at, s) <= cfg.wallSpacing)
            then after == before
            else if RollAt(stream, before.position, cfg.wallSkipPercent) then
              after == before.(position := before.position + 1)
            else WallTried(site, cfg, stream, before, after, at)
  {
    hide PlaceWall, TooClose, RollAt, Representative, HasRoom, ChosenRun, Walls, Shuffled, FirstWithRoom;
    assert orbits[..i + 1] == orbits[..i] + [orbits[i]];
    WallsOneMore(site, cfg, stream, orbits[..i], orbits[i], d);
    var before := Walls(site, cfg, stream, orbits[..i], d);
    var at := Representative(site, orbits[i]);
    CloseMeans(before.spots, at, cfg.wallSpacing);
    if before.remaining > 0 {
      var dirs := Shuffled(CARDINAL_DIRECTIONS, stream, before.position + 1);
      var preferred := PreferredLength(cfg, stream, before.position + 4);
      var first := WallGoesFirstWay(site, cfg, before.layout, at, dirs, preferred);
      ShufflePermutes(CARDINAL_DIRECTIONS, stream, before.position + 1);
    }
  }

  // ----- what later rounds cannot undo

  /** What carries something keeps carrying something. */
  ghost predicate Grows(a: Layout, b: Layout) {
    |a| == |b| && forall k :: 0 <= k < |a| && a[k].Some? ==> b[k].Some?
  }

  lemma RoomShrinks(site: Site, a: Layout, b: Layout, start: Spot, dir: (int, int), length: int)
    requires site.Valid() && |a| == site.Count() && Grows(a, b) && WallFits(site, b, start, dir, length)
    ensures WallFits(site, a, start, dir, length)
  {
    hide CellOrbit, WallCell;
    forall step | 0 <= step < length ensures CellFits(site, a, WallCell(start, dir, step)) {
      var at := WallCell(start, dir, step);
      assert CellFits(site, b, at);
      forall k | k in CellOrbit(site, at) ensures a[k] == None {
        assert k < |a| && b[k] == None;
      }
    }
  }

  ghost predicate Extends(before: Draft, after: Draft) {
    && before.spots <= after.spots && Grows(before.layout, after.layout)
    && before.position <= after.position && (before.remaining == 0 ==> after == before)
  }

  lemma WallRoundExtends(site: Site, cfg: Configuration, stream: Stream, orbits: seq<set<nat>>, d: Draft, i: nat)
    requires Fits(site, d) && NonEmptyOrbits(orbits) && i < |orbits|
    ensures Extends(Walls(site, cfg, stream, orbits[..i], d), Walls(site, cfg, stream, orbits[..i + 1], d))
  {
    hide TooClose, RollAt, Representative, HasRoom, ChosenRun, Walls, Shuffled, FirstWithRoom, Manhattan;
    WallRound(site, cfg, stream, orbits, d, i);
  }

  /** Some draw between these two numbers came out below the percentage. */
  ghost predicate SomeHit(stream: Stream, from: nat, to: nat, percent: nat) {
    exists n :: from <= n < to && RollAt(stream, n, percent)
  }

  /** Why an orbit cannot take a wall (any more): a spot is near, a draw skipped one, or no short run fits. */
  ghost predicate NoWallHere(site: Site, cfg: Configuration, stream: Stream, from: nat, r: Draft, at: Spot)
    requires Fits(site, r)
  {
    || TooClose(r.spots, at, cfg.wallSpacing)
    || SomeHit(stream, from, r.position, cfg.wallSkipPercent)
    || forall dir <- CARDINAL_DIRECTIONS :: !WallFits(site, r.layout, at, dir, cfg.shortWall)
  }

  lemma NoWallStays(site: Site, cfg: Configuration, stream: Stream, from: nat, a: Draft, b: Draft, at: Spot)
    requires Fits(site, a) && Fits(site, b) && Extends(a, b) && NoWallHere(site, cfg, stream, from, a, at)
    ensures NoWallHere(site, cfg, stream, from, b, at)
  {
    hide WallFits, RollAt;
    if TooClose(a.spots, at, cfg.wallSpacing) {
      var i :| 0 <= i < |a.spots| && Manhattan(at, a.spots[i]) <= cfg.wallSpacing;
      assert b.spots[i] == a.spots[i];
    } else if !SomeHit(stream, from, a.position, cfg.wallSkipPercent) {
      forall dir | dir in CARDINAL_DIRECTIONS ensures !WallFits(site, b.layout, at, dir, cfg.shortWall) {
        if WallFits(site, b.layout, at, dir, cfg.shortWall) {
          RoomShrinks(site, a.layout, b.layout, at, dir, cfg.shortWall);
        }
      }
    }
  }

  lemma RecordedIsClose(spots: seq<Spot>, at: Spot, gap: int)
    requires gap >= 0
    ensures TooClose(spots + [at], at, gap)
  {
    assert (spots + [at])[|spots|] == at;
  }

  lemma AfterTheRound(site: Site, cfg: Configuration, stream: Stream, orbits: seq<set<nat>>, d: Draft, i: nat)
    requires Fits(site, d) && NonEmptyOrbits(orbits) && i < |orbits| && cfg.wallSpacing >= 0
    requires d.position <= Walls(site, cfg, stream, orbits[..i], d).position
    ensures var r := Walls(site, cfg, stream, orbits[..i + 1], d);
            r.remaining == 0 || NoWallHere(site, cfg, stream, d.position, r, Representative(site, orbits[i]))
  {
    hide WallFits, TooClose, RollAt, Representative, ChosenRun, Walls, Shuffled;
    WallRound(site, cfg, stream, orbits, d, i);
    var before, at := Walls(site, cfg, stream, orbits[..i], d), Representative(site, orbits[i]);
    CloseMeans(before.spots, at, cfg.wallSpacing);
    RecordedIsClose(before.spots, at, cfg.wallSpacing);
    if RollAt(stream, before.position, cfg.wallSkipPercent) {
      assert SomeHit(stream, d.position, before.position + 1, cfg.wallSkipPercent);
    }
  }

  lemma {:induction false} WallsStopOnlyWhenFull(site: Site, cfg: Configuration, stream: Stream,
                                                 orbits: seq<set<nat>>, d: Draft, i: nat, n: nat)
    requires Fits(site, d) && NonEmptyOrbits(orbits) && n <= |orbits| && cfg.wallSpacing >= 0
    ensures var r := Walls(site, cfg, stream, orbits[..n], d);
            && d.position <= r.position
            && (i < n ==>
                  r.remaining == 0 || NoWallHere(site, cfg, stream, d.position, r, Representative(site, orbits[i])))
    decreases n
  {
    hide Walls, WallFits, TooClose, RollAt, Representative, NoWallHere, Grows;
    if n == 0 {
      NoRounds(site, cfg, stream, orbits, d);
    } else {
      WallsStopOnlyWhenFull(site, cfg, stream, orbits, d, i, n - 1);
      WallRoundExtends(site, cfg, stream, orbits, d, n - 1);
      var before, r := Walls(site, cfg, stream, orbits[..n - 1], d), Walls(site, cfg, stream, orbits[..n], d);
      if i == n - 1 {
        AfterTheRound(site, cfg, stream, orbits, d, i);
      } else if i < n && before.remaining != 0 {
        NoWallStays(site, cfg, stream, d.position, before, r, Representative(site, orbits[i]));
      }
    }
  }

  lemma NoRounds(site: Site, cfg: Configuration, stream: Stream, orbits: seq<set<nat>>, d: Draft)
    requires Fits(site, d)
    ensures Walls(site, cfg, stream, orbits[..0], d) == d && Pillars(site, cfg, stream, orbits[..0], d) == d
  {
  }

  /**
   The wall phase ends with its quota filled, or with every orbit unable to take a wall: a recorded spot is within
   the spacing, one of the phase's draws skipped it, or no run of the short length fits the final layout there.
   */
  lemma WallsFillUp(site: Site, cfg: Configuration, stream: Stream, orbits: seq<set<nat>>, d: Draft, i: nat)
    requires Fits(site, d) && NonEmptyOrbits(orbits) && i < |orbits| && cfg.wallSpacing >= 0
    ensures var (r, at) := (Walls(site, cfg, stream, orbits, d), Representative(site, orbits[i]));
            || r.remaining == 0
            || (exists s <- r.spots :: Manhattan(at, s) <= cfg.wallSpacing)
            || SomeHit(stream, d.position, r.position, cfg.wallSkipPercent)
            || forall dir <- CARDINAL_DIRECTIONS :: !WallFits(site, r.layout, at, dir, cfg.shortWall)
    ensures cfg.wallSkipPercent == 0 ==> !SomeHit(stream, d.position,
              Walls(site, cfg, stream, orbits, d).position, cfg.wallSkipPercent)
  {
    hide Walls, WallFits, TooClose, Representative;
    assert orbits[..|orbits|] == orbits;
    WallsStopOnlyWhenFull(site, cfg, stream, orbits, d, i, |orbits|);
    CloseMeans(Walls(site, cfg, stream, orbits, d).spots, Representative(site, orbits[i]), cfg.wallSpacing);
  }

  lemma WallsAllSkipped(site: Site, cfg: Configuration, stream: Stream, orbits: seq<set<nat>>, d: Draft)
    requires Fits(site, d) && NonEmptyOrbits(orbits) && cfg.wallSkipPercent >= 100
    ensures var r := Walls(site, cfg, stream, orbits, d);
            r.layout == d.layout && r.spots == d.spots && r.remaining == d.remaining
    decreases |orbits|
  {
    hide TooClose, PlaceWall, Representative;
    if orbits != [] && d.remaining != 0 {
      WallsAllSkipped(site, cfg, stream, orbits[1..], WallStep(site, cfg, stream, d, orbits[0]));
    }
  }

  // ----- isolated pillars, orbit by orbit

  lemma {:induction false} PillarsOneMore(site: Site, cfg: Configuration, stream: Stream, orbits: seq<set<nat>>,
                                          orbit: set<nat>, d: Draft)
    requires Fits(site, d) && NonEmptyOrbits(orbits) && orbit != {}
    ensures NonEmptyOrbits(orbits + [orbit])
    ensures var r := Pillars(site, cfg, stream, orbits, d);
            Pillars(site, cfg, stream, orbits + [orbit], d)
            == if r.remaining == 0 then r else PillarStep(site, cfg, stream, r, orbit)
    decreases |orbits|
  {
    hide PillarStep;
    if orbits == [] {
      assert ([orbit])[1..] == [] && orbits + [orbit] == [orbit];
    } else {
      assert (orbits + [orbit])[1..] == orbits[1..] + [orbit] && (orbits + [orbit])[0] == orbits[0];
      if d.remaining != 0 {
        PillarsOneMore(site, cfg, stream, orbits[1..], orbit, PillarStep(site, cfg, stream, d, orbits[0]));
      }
    }
  }

  /** What the `i`-th round of the pillar loop does, whatever the rounds before it did. */
  lemma PillarRound(site: Site, cfg: Configuration, stream: Stream, orbits: seq<set<nat>>, d: Draft, i: nat)
    requires Fits(site, d) && NonEmptyOrbits(orbits) && i < |orbits|
    ensures var before := Pillars(site, cfg, stream, orbits[..i], d);
            var after := Pillars(site, cfg, stream, orbits[..i + 1], d);
            var at := Representative(site, orbits[i]);
            if before.remaining == 0 || (exists k <- orbits[i] :: !site.safe(k))
               || (exists s <- before.spots :: Manhattan(at, s) <= cfg.pillarSpacing) then after == before
            else if RollAt(stream, before.position, cfg.pillarSkipPercent) then
              after == before.(position := before.position + 1)
            else
              && |after.layout| == |before.layout| && after.spots == before.spots + [at]
              && (forall k :: 0 <= k < |after.layout| ==>
                    after.layout[k] == if k in orbits[i] then Some(Pillar) else before.layout[k])
              && after.remaining + 1 == before.remaining && after.position == before.position + 1
  {
    hide TooClose, RollAt, Representative, Pillars;
    assert orbits[..i + 1] == orbits[..i] + [orbits[i]];
    PillarsOneMore(site, cfg, stream, orbits[..i], orbits[i], d);
    CloseMeans(Pillars(site, cfg, stream, orbits[..i], d).spots, Representative(site, orbits[i]), cfg.pillarSpacing);
  }

  /** Why an orbit on safe tiles cannot take a pillar (any more). */
  ghost predicate NoPillarHere(cfg: Configuration, stream: Stream, from: nat, r: Draft, at: Spot) {
    TooClose(r.spots, at, cfg.pillarSpacing) || SomeHit(stream, from, r.position, cfg.pillarSkipPercent)
  }

  lemma NoPillarStays(cfg: Configuration, stream: Stream, from: nat, a: Draft, b: Draft, at: Spot)
    requires a.spots <= b.spots && a.position <= b.position && NoPillarHere(cfg, stream, from, a, at)
    ensures NoPillarHere(cfg, stream, from, b, at)
  {
    hide RollAt;
    if TooClose(a.spots, at, cfg.pillarSpacing) {
      var i :| 0 <= i < |a.spots| && Manhattan(at, a.spots[i]) <= cfg.pillarSpacing;
      assert b.spots[i] == a.spots[i];
    }
  }

  lemma {:induction false} PillarsStopOnlyWhenFull(site: Site, cfg: Configuration, stream: Stream,
                                                   orbits: seq<set<nat>>, d: Draft, i: nat, n: nat)
    requires Fits(site, d) && NonEmptyOrbits(orbits) && n <= |orbits| && cfg.pillarSpacing >= 0
    ensures var r := Pillars(site, cfg, stream, orbits[..n], d);
            && d.position <= r.position
            && (i < n && site.AllSafe(orbits[i]) ==>
                  r.remaining == 0 || NoPillarHere(cfg, stream, d.position, r, Representative(site, orbits[i])))
    decreases n
  {
    hide Pillars, TooClose, RollAt, Representative;
    if n == 0 {
      NoRounds(site, cfg, stream, orbits, d);
    } else {
      PillarsStopOnlyWhenFull(site, cfg, stream, orbits, d, i, n - 1);
      PillarRound(site, cfg, stream, orbits, d, n - 1);
      var before, r := Pillars(site, cfg, stream, orbits[..n - 1], d), Pillars(site, cfg, stream, orbits[..n], d);
      var at := Representative(site, orbits[n - 1]);
      RecordedIsClose(before.spots, at, cfg.pillarSpacing);
      CloseMeans(before.spots, at, cfg.pillarSpacing);
      if RollAt(stream, before.position, cfg.pillarSkipPercent) {
        assert SomeHit(stream, d.position, before.position + 1, cfg.pillarSkipPercent);
      }
      if i < n - 1 && site.AllSafe(orbits[i]) && before.remaining != 0 {
        NoPillarStays(cfg, stream, d.position, before, r, Representative(site, orbits[i]));
      }
    }
  }

  /**
   The pillar phase ends with its quota filled, or with every safe orbit unable to take a pillar: a recorded spot
   is within the spacing, or one of the phase's draws skipped it.
   */
  lemma PillarsFillUp(site: Site, cfg: Configuration, stream: Stream, orbits: seq<set<nat>>, d: Draft, i: nat)
    requires Fits(site, d) && NonEmptyOrbits(orbits) && i < |orbits| && cfg.pillarSpacing >= 0
    requires forall k <- orbits[i] :: site.safe(k)
    ensures var r := Pillars(site, cfg, stream, orbits, d);
            || r.remaining == 0
            || (exists s <- r.spots :: Manhattan(Representative(site, orbits[i]), s) <= cfg.pillarSpacing)
            || SomeHit(stream, d.position, r.position, cfg.pillarSkipPercent)
    ensures cfg.pillarSkipPercent == 0 ==> !SomeHit(stream, d.position,
              Pillars(site, cfg, stream, orbits, d).position, cfg.pillarSkipPercent)
  {
    hide Pillars, TooClose, Representative;
    assert orbits[..|orbits|] == orbits;
    PillarsStopOnlyWhenFull(site, cfg, stream, orbits, d, i, |orbits|);
    CloseMeans(Pillars(site, cfg, stream, orbits, d).spots, Representative(site, orbits[i]), cfg.pillarSpacing);
  }

  lemma PillarsAllSkipped(site: Site, cfg: Configuration, stream: Stream, orbits: seq<set<nat>>, d: Draft)
    requires Fits(site, d) && NonEmptyOrbits(orbits) && cfg.pillarSkipPercent >= 100
    ensures var r := Pillars(site, cfg, stream, orbits, d);
            r.layout == d.layout && r.spots == d.spots && r.remaining == d.remaining
    decreases |orbits|
  {
    hide TooClose, Representative;
    if orbits != [] && d.remaining != 0 {
      PillarsAllSkipped(site, cfg, stream, orbits[1..], PillarStep(site, cfg, stream, d, orbits[0]));
    }
  }

  /** A skip percentage of 100 or more leaves its phase without a single wall or pillar. */
  lemma FullSkipPlacesNothing(site: Site, cfg: Configuration, style: Style, stream: Stream, orbits: seq<set<nat>>,
                              position: nat)
    requires site.Valid() && NonEmptyOrbits(orbits)
    ensures var walls := AfterWalls(site, cfg, style, stream, orbits, position);
            cfg.wallSkipPercent >= 100 ==>
              walls.spots == [] && forall k :: 0 <= k < |walls.layout| ==> walls.layout[k] == None
    ensures var walls := AfterWalls(site, cfg, style, stream, orbits, position);
            var stones := AfterPillars(site, cfg, style, stream, orbits, position);
            cfg.pillarSkipPercent >= 100 ==> stones.spots == walls.spots && stones.layout == walls.layout
  {
    hide Walls, Pillars;
    if cfg.wallSkipPercent >= 100 {
      WallsAllSkipped(site, cfg, stream, orbits, Draft(BlankLayout(site.Count()), [], style.wallSegments, position));
    }
    if cfg.pillarSkipPercent >= 100 {
      var walls := AfterWalls(site, cfg, style, stream, orbits, position);
      PillarsAllSkipped(site, cfg, stream, orbits, walls.(remaining := style.isolatedPillars));
    }
  }

  // ----- shrubs

  /** How many of the first `n` orbits touch no pillar. */
  ghost function UntouchedBefore(layout: Layout, orbits: seq<set<nat>>, n: nat): nat
    requires n <= |orbits|
  {
    if n == 0 then 0 else UntouchedBefore(layout, orbits, n - 1) + if Untouched(layout, orbits[n - 1]) then 1 else 0
  }

  /** The orbit's representative is within the radius of that of one of the leading orbits, the clusters. */
  ghost predicate NearCluster(site: Site, style: Style, orbits: seq<set<nat>>, i: nat, radius: int)
    requires NonEmptyOrbits(orbits) && i < |orbits|
  {
    exists c :: 0 <= c < |orbits| && c < style.shrubClusters
                && Manhattan(Representative(site, orbits[i]), Representative(site, orbits[c])) <= radius
  }

  /** Dense near a cluster, as configured around it, a quarter of that elsewhere. */
  ghost function ShrubChance(site: Site, style: Style, orbits: seq<set<nat>>, i: nat): nat
    requires NonEmptyOrbits(orbits) && i < |orbits|
  {
    if NearCluster(site, style, orbits, i, style.shrubRadius) then 90
    else if NearCluster(site, style, orbits, i, style.shrubSoftRadius) then style.shrubFillPercent
    else style.shrubFillPercent / 4
  }

  lemma NearestCluster(site: Site, style: Style, orbits: seq<set<nat>>, i: nat, radius: int)
    requires NonEmptyOrbits(orbits) && i < |orbits| && ClusterCenters(site, style, orbits) != []
    ensures var centers := ClusterCenters(site, style, orbits);
            NearCluster(site, style, orbits, i, radius)
            <==> ClosestDistance(centers, Representative(site, orbits[i])) <= radius
  {
    hide Representative, Manhattan;
    var centers, at := ClusterCenters(site, style, orbits), Representative(site, orbits[i]);
    var d := ClosestDistance(centers, at);
    if NearCluster(site, style, orbits, i, radius) {
      var c :| 0 <= c < |orbits| && c < style.shrubClusters && Manhattan(at, Representative(site, orbits[c])) <= radius;
      assert centers[c] in centers;
    }
    if d <= radius {
      var center :| center in centers && d == Manhattan(at, center);
      var c :| 0 <= c < |centers| && centers[c] == center;
      assert Manhattan(at, Representative(site, orbits[c])) <= radius;
    }
  }

  lemma PercentIsChance(site: Site, style: Style, orbits: seq<set<nat>>, i: nat)
    requires NonEmptyOrbits(orbits) && i < |orbits|
    ensures ShrubPercent(style, ClusterCenters(site, style, orbits), Representative(site, orbits[i]))
         == ShrubChance(site, style, orbits, i)
  {
    hide Representative, Manhattan;
    if ClusterCenters(site, style, orbits) != [] {
      NearestCluster(site, style, orbits, i, style.shrubRadius);
      NearestCluster(site, style, orbits, i, style.shrubSoftRadius);
    }
  }

  /** The orbit touches no pillar and hits its own draw: the one after those of the untouched orbits before it. */
  ghost predicate Sprouts(site: Site, style: Style, stream: Stream, orbits: seq<set<nat>>, stones: Draft, i: nat)
    requires NonEmptyOrbits(orbits) && i < |orbits|
  {
    && Untouched(stones.layout, orbits[i])
    && RollAt(stream, stones.position + UntouchedBefore(stones.layout, orbits, i), ShrubChance(site, style, orbits, i))
  }

  lemma {:induction false} ShrubsOneMore(site: Site, style: Style, centers: seq<Spot>, stream: Stream,
                                         orbits: seq<set<nat>>, orbit: set<nat>, d: Draft)
    requires Fits(site, d) && NonEmptyOrbits(orbits) && orbit != {}
    ensures NonEmptyOrbits(orbits + [orbit])
    ensures Shrubs(site, style, centers, stream, orbits + [orbit], d)
         == ShrubStep(site, style, centers, stream, Shrubs(site, style, centers, stream, orbits, d), orbit)
    decreases |orbits|
  {
    hide ShrubStep;
    if orbits == [] {
      assert ([orbit])[1..] == [] && orbits + [orbit] == [orbit];
    } else {
      assert (orbits + [orbit])[1..] == orbits[1..] + [orbit] && (orbits + [orbit])[0] == orbits[0];
      ShrubsOneMore(site, style, centers, stream, orbits[1..], orbit,
        ShrubStep(site, style, centers, stream, d, orbits[0]));
    }
  }

  lemma SamePillarsTouch(a: Layout, b: Layout, orbit: set<nat>)
    requires SamePillars(a, b)
    ensures TouchesPillar(a, orbit) <==> TouchesPillar(b, orbit)
  {
    if TouchesPillar(a, orbit) {
      var k :| k in orbit && k < |a| && a[k] == Some(Pillar);
      assert b[k] == Some(Pillar);
    }
    if TouchesPillar(b, orbit) {
      var k :| k in orbit && k < |b| && b[k] == Some(Pillar);
      assert a[k] == Some(Pillar);
    }
  }

  /** Some of the first `n` orbits holds the tile and sprouts. */
  ghost predicate Overgrown(site: Site, style: Style, stream: Stream, orbits: seq<set<nat>>, stones: Draft, n: nat,
                            k: nat)
    requires NonEmptyOrbits(orbits) && n <= |orbits|
  {
    exists i :: 0 <= i < n && k in orbits[i] && Sprouts(site, style, stream, orbits, stones, i)
  }

  /** After `n` rounds: the pillars as before, a draw per untouched orbit, shrubs where one of them sprouts. */
  ghost predicate ShrubsSoFar(site: Site, style: Style, stream: Stream, orbits: seq<set<nat>>, stones: Draft, n: nat,
                              r: Draft)
    requires NonEmptyOrbits(orbits) && n <= |orbits|
  {
    && r.position == stones.position + UntouchedBefore(stones.layout, orbits, n) && SamePillars(stones.layout, r.layout)
    && forall k :: 0 <= k < |r.layout| ==>
         (r.layout[k] == Some(Shrub) <==> Overgrown(site, style, stream, orbits, stones, n, k))
  }

  lemma ShrubRound(site: Site, style: Style, stream: Stream, orbits: seq<set<nat>>, stones: Draft, i: nat, d: Draft)
    requires Fits(site, stones) && NonEmptyOrbits(orbits) && i < |orbits|
    requires Fits(site, d) && ShrubsSoFar(site, style, stream, orbits, stones, i, d)
    ensures ShrubsSoFar(site, style, stream, orbits, stones, i + 1,
              ShrubStep(site, style, ClusterCenters(site, style, orbits), stream, d, orbits[i]))
  {
    hide TouchesPillar, Untouched, RollAt, Representative, ShrubPercent, ShrubChance, ClusterCenters;
    SamePillarsTouch(stones.layout, d.layout, orbits[i]);
    UntouchedMeans(stones.layout, orbits[i]);
    PercentIsChance(site, style, orbits, i);
    var r := ShrubStep(site, style, ClusterCenters(site, style, orbits), stream, d, orbits[i]);
    var grows := Sprouts(site, style, stream, orbits, stones, i);
    assert r.layout == if grows then Fill(d.layout, orbits[i], Shrub) else d.layout;
    forall k | 0 <= k < |r.layout|
      ensures stones.layout[k] == Some(Pillar) <==> r.layout[k] == Some(Pillar)
      ensures r.layout[k] == Some(Shrub) <==> Overgrown(site, style, stream, orbits, stones, i + 1, k)
    {
      if grows && k in orbits[i] {
        UntouchedTile(stones.layout, orbits[i], k);
      }
      assert Overgrown(site, style, stream, orbits, stones, i + 1, k)
        <==> Overgrown(site, style, stream, orbits, stones, i, k) || (k in orbits[i] && grows);
    }
  }

  lemma UntouchedTile(layout: Layout, orbit: set<nat>, k: nat)
    requires !TouchesPillar(layout, orbit) && k in orbit && k < |layout|
    ensures layout[k] != Some(Pillar)
  {
  }

  lemma {:induction false} ShrubRounds(site: Site, style: Style, stream: Stream, orbits: seq<set<nat>>, stones: Draft,
                                       n: nat)
    requires Fits(site, stones) && NoShrubs(stones.layout) && NonEmptyOrbits(orbits) && n <= |orbits|
    ensures ShrubsSoFar(site, style, stream, orbits, stones, n,
              Shrubs(site, style, ClusterCenters(site, style, orbits), stream, orbits[..n], stones))
    decreases n
  {
    hide ShrubStep, ClusterCenters, Sprouts;
    if n > 0 {
      hide ShrubsSoFar, Shrubs;
      ShrubRounds(site, style, stream, orbits, stones, n - 1);
      assert orbits[..n] == orbits[..n - 1] + [orbits[n - 1]];
      var centers := ClusterCenters(site, style, orbits);
      ShrubsOneMore(site, style, centers, stream, orbits[..n - 1], orbits[n - 1], stones);
      ShrubRound(site, style, stream, orbits, stones, n - 1,
        Shrubs(site, style, centers, stream, orbits[..n - 1], stones));
    }
  }

  /**
   A tile of a finished layout carries a shrub exactly when some orbit of the order holds it, touches none of the
   pillars, and hits its own draw: the one after the pillars' draws and those of the untouched orbits before it.
   */
  lemma ShrubsStandWhereGrown(site: Site, cfg: Configuration, style: Style, stream: Stream, orbits: seq<set<nat>>,
                              position: nat, k: nat)
    requires site.Valid() && AllCandidates(site, orbits) && NonEmptyOrbits(orbits) && PositiveWalls(cfg)
    ensures var stones := AfterPillars(site, cfg, style, stream, orbits, position);
            var built := Built(site, cfg, style, stream, orbits, position);
            && built.position == stones.position + UntouchedBefore(stones.layout, orbits, |orbits|)
            && built.spots == stones.spots && SamePillars(stones.layout, built.layout)
    ensures var stones := AfterPillars(site, cfg, style, stream, orbits, position);
            var built := Built(site, cfg, style, stream, orbits, position);
            k < |built.layout| ==>
              (built.layout[k] == Some(Shrub)
               <==> exists i :: (&& 0 <= i < |orbits| && k in orbits[i] && Untouched(stones.layout, orbits[i])
                                 && RollAt(stream, stones.position + UntouchedBefore(stones.layout, orbits, i),
                                           ShrubChance(site, style, orbits, i))))
  {
    hide Walls, Pillars, Shrubs, AllCandidates, NonEmptyOrbits, RollAt, Untouched, ShrubChance, UntouchedBefore,
         Sound, SpotsStand, AfterPillars, ClusterCenters;
    StonesAreStony(site, cfg, style, stream, orbits, position);
    var stones := AfterPillars(site, cfg, style, stream, orbits, position);
    ShrubRounds(site, style, stream, orbits, stones, |orbits|);
    assert orbits[..|orbits|] == orbits;
    ShrubsKeep(site, style, ClusterCenters(site, style, orbits), stream, orbits, stones);
  }
}
