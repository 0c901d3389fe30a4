/** The tiles the generator leaves alone: everything near an objective, an anchor or a feature. */
module Protection {
  import opened ArenaMap
  import opened MapRenderer
  import opened Masks
  import opened PathSearch
  import opened Placement
  import opened Prelude
  import opened Tiles

  ghost predicate Near(m: ArenaMap, center: nat, radius: int, k: nat)
    requires m.widthTiles > 0
  {
    Chebyshev(CoordOf(m, center), CoordOf(m, k)) <= radius
  }

  ghost predicate NearAny(m: ArenaMap, centers: seq<nat>, radius: int, k: nat)
    requires m.widthTiles > 0
  {
    exists i :: 0 <= i < |centers| && Near(m, centers[i], radius, k)
  }

  /** One row of the buffer square, from one column to another, cut off at the edges. */
  method MarkRow(m: ArenaMap, protected: array<bool>, row: nat, low: int, high: int)
    requires m.widthTiles > 0 && protected.Length == TileCount(m) && row < m.heightTiles
    modifies protected
    ensures forall k: nat :: k < protected.Length ==>
      (protected[k] <==>
        old(protected[k]) || (RowOf(m.widthTiles, k) == row && low <= ColumnOf(m.widthTiles, k) <= high))
  {
    var column := low;
    while column <= high
      invariant low <= column
      invariant forall k: nat :: k < protected.Length ==>
        (protected[k] <==> old(protected[k])
                           || (RowOf(m.widthTiles, k) == row && low <= ColumnOf(m.widthTiles, k) <= high
                             && ColumnOf(m.widthTiles, k) < column))
      decreases high - column
    {
      if 0 <= column < m.widthTiles {
        var index := TileIndex(m.widthTiles, column, row);
        TileIndexInRange(m.widthTiles, m.heightTiles, column, row);
        forall k: nat | k < protected.Length
          ensures RowOf(m.widthTiles, k) == row && ColumnOf(m.widthTiles, k) == column <==> k == index
        {
          TileIndexJoins(m.widthTiles, k);
          TileIndexSplits(m.widthTiles, column, row);
        }
        protected[index] := true;
      }
      column := column + 1;
    }
  }

  method MarkWithBuffer(m: ArenaMap, protected: array<bool>, center: nat, radius: int)
    requires m.widthTiles > 0 && protected.Length == TileCount(m)
    modifies protected
    ensures forall k: nat :: k < protected.Length ==>
      (protected[k] <==> old(protected[k]) || Near(m, center, radius, k))
  {
    var (centerColumn, centerRow) := CoordOf(m, center);
    var row := centerRow - radius;
    while row <= centerRow + radius
      invariant centerRow - radius <= row
      invariant forall k: nat :: k < protected.Length ==>
        (protected[k] <==> old(protected[k]) || (Near(m, center, radius, k) && RowOf(m.widthTiles, k) < row))
      decreases centerRow + radius - row
    {
      forall k: nat | k < protected.Length ensures RowOf(m.widthTiles, k) < m.heightTiles {
        InArea(m.widthTiles, m.heightTiles, k);
      }
      if 0 <= row < m.heightTiles {
        MarkRow(m, protected, row, centerColumn - radius, centerColumn + radius);
      }
      row := row + 1;
    }
  }

  /** What has been marked so far: the buffers of these centres. */
  ghost predicate Marked(m: ArenaMap, protected: array<bool>, centers: seq<nat>, radius: int)
    requires m.widthTiles > 0
    reads protected
  {
    forall k: nat :: k < protected.Length ==> (protected[k] <==> NearAny(m, centers, radius, k))
  }

  method MarkNext(m: ArenaMap, protected: array<bool>, ghost centers: seq<nat>, center: nat, radius: int)
    requires m.widthTiles > 0 && protected.Length == TileCount(m) && Marked(m, protected, centers, radius)
    modifies protected
    ensures Marked(m, protected, centers + [center], radius)
  {
    MarkWithBuffer(m, protected, center, radius);
    forall k: nat | k < protected.Length
      ensures protected[k] <==> NearAny(m, centers + [center], radius, k)
    {
      NearMore(m, centers, center, radius, k);
    }
  }

  lemma NearMore(m: ArenaMap, centers: seq<nat>, center: nat, radius: int, k: nat)
    requires m.widthTiles > 0
    ensures NearAny(m, centers + [center], radius, k) <==> NearAny(m, centers, radius, k) || Near(m, center, radius, k)
  {
    var more := centers + [center];
    if NearAny(m, centers, radius, k) {
      var i :| 0 <= i < |centers| && Near(m, centers[i], radius, k);
      assert more[i] == centers[i];
    }
    if NearAny(m, more, radius, k) {
      var i :| 0 <= i < |more| && Near(m, more[i], radius, k);
      assert i < |centers| ==> more[i] == centers[i];
    }
    assert more[|centers|] == center;
  }

  // ----- the points a map is built around

  function FeatureCenters(fs: seq<Feature>): seq<Point> {
    seq(|fs|, i requires 0 <= i < |fs| => fs[i].center)
  }

  function PointsToGuard(m: ArenaMap): seq<Point> { m.teamAAnchors + m.teamBAnchors + FeatureCenters(m.features) }

  ghost predicate AllOnTiles(m: ArenaMap, ps: seq<Point>)
    requires m.tileUnits > 0
  {
    forall i :: 0 <= i < |ps| ==> TileIndexForCenter(m, ps[i]).Ok?
  }

  ghost function TilesOfPoints(m: ArenaMap, ps: seq<Point>): (ts: seq<nat>)
    requires m.tileUnits > 0 && AllOnTiles(m, ps)
    ensures |ts| == |ps| && forall i :: 0 <= i < |ps| ==> OnTile(m, ps[i], ts[i])
  {
    seq(|ps|, i requires 0 <= i < |ps| => TileIndexForCenter(m, ps[i]).value)
  }

  ghost function Centers(m: ArenaMap): seq<nat>
    requires m.tileUnits > 0 && AllOnTiles(m, PointsToGuard(m))
  {
    ObjectiveIndices(m.objectiveMask, TileCount(m)) + TilesOfPoints(m, PointsToGuard(m))
  }

  lemma CentersAreSpecial(m: ArenaMap, j: nat)
    requires ValidGeometry(m) && AllOnTiles(m, PointsToGuard(m))
    ensures j in Centers(m) <==> Special(m, j)
  {
    hide TileIndexForCenter, HasTile, ObjectiveIndices, TilesOfPoints;
    if j in Centers(m) {
      CenterIsSpecial(m, j);
    }
    if Special(m, j) {
      SpecialIsCenter(m, j);
    }
  }

  lemma CenterIsSpecial(m: ArenaMap, j: nat)
    requires ValidGeometry(m) && AllOnTiles(m, PointsToGuard(m)) && j in Centers(m)
    ensures Special(m, j)
  {
    hide TileIndexForCenter, HasTile, TilesOfPoints, PointsToGuard;
    var ps := PointsToGuard(m);
    var ts := TilesOfPoints(m, ps);
    if j in ts {
      var i :| 0 <= i < |ts| && ts[i] == j;
      AcceptedPointIsCenter(m, ps[i]);
      PointIsAnchorOrFeature(m, i);
    }
  }

  lemma SpecialIsCenter(m: ArenaMap, j: nat)
    requires ValidGeometry(m) && AllOnTiles(m, PointsToGuard(m)) && Special(m, j)
    ensures j in Centers(m)
  {
    hide TileIndexForCenter, HasTile, TilesOfPoints;
    var ps := PointsToGuard(m);
    var ts := TilesOfPoints(m, ps);
    if exists p <- m.teamAAnchors + m.teamBAnchors :: OnTile(m, p, j) {
      var i :| 0 <= i < |m.teamAAnchors + m.teamBAnchors| && OnTile(m, (m.teamAAnchors + m.teamBAnchors)[i], j);
      assert ps[i] == (m.teamAAnchors + m.teamBAnchors)[i] && OnTile(m, ps[i], ts[i]);
    }
    if exists f <- m.features :: OnTile(m, f.center, j) {
      var i :| 0 <= i < |m.features| && OnTile(m, m.features[i].center, j);
      var at := |m.teamAAnchors + m.teamBAnchors| + i;
      assert ps[at] == m.features[i].center && OnTile(m, ps[at], ts[at]);
    }
  }

  lemma PointIsAnchorOrFeature(m: ArenaMap, i: nat)
    requires i < |PointsToGuard(m)|
    ensures var p := PointsToGuard(m)[i];
            p in m.teamAAnchors + m.teamBAnchors || exists f <- m.features :: f.center == p
  {
    var n := |m.teamAAnchors + m.teamBAnchors|;
    if n <= i {
      assert m.features[i - n] in m.features;
    }
  }

  lemma NearCentersIsNearSpecial(m: ArenaMap, radius: int, k: nat)
    requires ValidGeometry(m) && AllOnTiles(m, PointsToGuard(m))
    ensures NearAny(m, Centers(m), radius, k) <==> NearSpecial(m, radius, k)
  {
    var cs := Centers(m);
    if NearAny(m, cs, radius, k) {
      var i :| 0 <= i < |cs| && Near(m, cs[i], radius, k);
      assert cs[i] in cs;
      CentersAreSpecial(m, cs[i]);
    }
    if NearSpecial(m, radius, k) {
      var j: nat :| Special(m, j) && Chebyshev(CoordOf(m, j), CoordOf(m, k)) <= radius;
      CentersAreSpecial(m, j);
      var i :| 0 <= i < |cs| && cs[i] == j;
      assert Near(m, cs[i], radius, k);
    }
  }

  /** The protected tiles of a map whose points all lie on tiles. */
  ghost function ProtectedOf(m: ArenaMap, radius: int): (p: seq<bool>)
    requires m.tileUnits > 0 && m.widthTiles > 0
    ensures |p| == TileCount(m) && forall k: nat :: k < |p| ==> (p[k] <==> NearSpecial(m, radius, k))
  {
    seq(TileCount(m), k requires 0 <= k < TileCount(m) => NearSpecial(m, radius, k))
  }

  method MarkObjectives(m: ArenaMap, protected: array<bool>, radius: int)
    requires m.widthTiles > 0 && protected.Length == TileCount(m) && Marked(m, protected, [], radius)
    modifies protected
    ensures Marked(m, protected, ObjectiveIndices(m.objectiveMask, TileCount(m)), radius)
  {
    var objectives := ObjectiveIndices(m.objectiveMask, TileCount(m));
    for i := 0 to |objectives|
      invariant Marked(m, protected, objectives[..i], radius)
    {
      MarkNext(m, protected, objectives[..i], objectives[i], radius);
      assert objectives[..i] + [objectives[i]] == objectives[..i + 1];
    }
    assert objectives[..|objectives|] == objectives;
  }

  /** The first point that is not the centre of a tile, if there is one. */
  ghost function FirstOffTile(m: ArenaMap, ps: seq<Point>): (r: Option<Point>)
    requires m.tileUnits > 0
    ensures r.None? <==> AllOnTiles(m, ps)
  {
    if ps == [] then None
    else if TileIndexForCenter(m, ps[0]).Err? then Some(ps[0]) else
      assert ps == [ps[0]] + ps[1..];
      FirstOffTile(m, ps[1..])
  }

  lemma {:induction false} FirstOffTileIs(m: ArenaMap, ps: seq<Point>, i: nat)
    requires m.tileUnits > 0 && i < |ps| && AllOnTiles(m, ps[..i]) && TileIndexForCenter(m, ps[i]).Err?
    ensures FirstOffTile(m, ps) == Some(ps[i]) && TileIndexForCenter(m, ps[i]) == Err(OffTile(ps[i]))
    decreases i
  {
    if i > 0 {
      assert ps[..i][0] == ps[0];
      assert ps[1..][..i - 1] == ps[..i][1..];
      FirstOffTileIs(m, ps[1..], i - 1);
    }
  }

  lemma OneMorePoint(m: ArenaMap, ps: seq<Point>, i: nat)
    requires m.tileUnits > 0 && i < |ps| && AllOnTiles(m, ps[..i]) && TileIndexForCenter(m, ps[i]).Ok?
    ensures AllOnTiles(m, ps[..i + 1])
    ensures TilesOfPoints(m, ps[..i + 1]) == TilesOfPoints(m, ps[..i]) + [TileIndexForCenter(m, ps[i]).value]
  {
    hide TileIndexForCenter;
    assert ps[..i + 1] == ps[..i] + [ps[i]];
  }

  lemma NoPoints(m: ArenaMap)
    requires m.tileUnits > 0
    ensures AllOnTiles(m, []) && TilesOfPoints(m, []) == []
  {
  }

  /** Once the buffers of all centres are marked, exactly the protected tiles are. */
  lemma MarkedIsProtected(m: ArenaMap, protected: array<bool>, radius: int)
    requires ValidGeometry(m) && protected.Length == TileCount(m) && AllOnTiles(m, PointsToGuard(m))
    requires Marked(m, protected, Centers(m), radius)
    ensures protected[..] == ProtectedOf(m, radius)
  {
    hide NearAny, NearSpecial, Centers, AllOnTiles, PointsToGuard, ProtectedOf;
    forall k: nat | k < protected.Length ensures protected[k] <==> NearSpecial(m, radius, k) {
      NearCentersIsNearSpecial(m, radius, k);
    }
  }

  /** `protected_tiles`: refused exactly when an anchor or a feature is off the tiles, naming the first of them. */
  method ProtectedTiles(m: ArenaMap, radius: int) returns (r: Result<seq<bool>, ContentError>)
    requires ValidGeometry(m)
    ensures r.Ok? <==> AllOnTiles(m, PointsToGuard(m))
    ensures r.Ok? ==> r.value == ProtectedOf(m, radius)
    ensures r.Err? ==> r.error == OffTile(FirstOffTile(m, PointsToGuard(m)).value)
  {
    hide TileIndexForCenter, AllOnTiles, TilesOfPoints, PointsToGuard, ProtectedOf, Marked, FirstOffTile;
    var protected := new bool[TileCount(m)](_ => false);
    NothingMarked(m, protected, radius);
    MarkObjectives(m, protected, radius);
    var points := PointsToGuard(m);
    ghost var objectives := ObjectiveIndices(m.objectiveMask, TileCount(m));
    NoPoints(m);
    assert points[..0] == [] && objectives + [] == objectives;
    for i := 0 to |points|
      invariant AllOnTiles(m, points[..i])
      invariant Marked(m, protected, objectives + TilesOfPoints(m, points[..i]), radius)
    {
      var index := TileIndexForCenter(m, points[i]);
      if index.Err? {
        FirstOffTileIs(m, points, i);
        return Err(index.error);
      }
      MarkNext(m, protected, objectives + TilesOfPoints(m, points[..i]), index.value, radius);
      OneMorePoint(m, points, i);
      assert objectives + TilesOfPoints(m, points[..i]) + [index.value]
        == objectives + TilesOfPoints(m, points[..i + 1]);
    }
    assert points[..|points|] == points;
    MarkedIsProtected(m, protected, radius);
    r := Ok(protected[..]);
  }

  lemma NothingMarked(m: ArenaMap, protected: array<bool>, radius: int)
    requires m.widthTiles > 0 && forall k: nat :: k < protected.Length ==> !protected[k]
    ensures Marked(m, protected, [], radius)
  {
  }
}
