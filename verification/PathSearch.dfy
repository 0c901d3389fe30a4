/** The breadth-first search that decides whether a spawn anchor still reaches the objective. */
module PathSearch {
  import opened ArenaMap
  import opened Masks
  import opened Prelude
  import opened Tiles

  /** What stands on each tile. */
  type Layout = seq<Option<ObstacleKind>>

  ghost predicate Searchable(m: ArenaMap, layout: Layout) {
    m.widthTiles > 0 && |layout| == TileCount(m)
  }

  /** A tile a path may step onto. */
  predicate Open(m: ArenaMap, layout: Layout, k: nat) {
    k < |layout| && HasTile(m.footprintMask, k) && layout[k] != Some(Pillar)
  }

  /** `index_to_coord`: the column and row of a tile. */
  function CoordOf(m: ArenaMap, k: nat): (nat, nat)
    requires m.widthTiles > 0
  {
    (ColumnOf(m.widthTiles, k), RowOf(m.widthTiles, k))
  }

  function Manhattan(a: (int, int), b: (int, int)): nat { Abs(a.0 - b.0) + Abs(a.1 - b.1) }

  /** Sharing an edge: one step apart in rows plus columns. */
  predicate Adjacent(m: ArenaMap, a: nat, b: nat)
    requires m.widthTiles > 0
  {
    Manhattan(CoordOf(m, a), CoordOf(m, b)) == 1
  }

  /** A walk along shared edges; every tile after the first is open. */
  ghost predicate IsWalk(m: ArenaMap, layout: Layout, path: seq<nat>)
    requires Searchable(m, layout)
  {
    && path != []
    && forall i :: 0 < i < |path| ==> Adjacent(m, path[i - 1], path[i]) && Open(m, layout, path[i])
  }

  ghost predicate Walks(m: ArenaMap, layout: Layout, a: nat, b: nat)
    requires Searchable(m, layout)
  {
    exists path :: IsWalk(m, layout, path) && path[0] == a && path[|path| - 1] == b
  }

  /** Some objective tile can be walked to. */
  ghost predicate Reaches(m: ArenaMap, layout: Layout, start: nat)
    requires Searchable(m, layout)
  {
    exists goal: nat :: HasTile(m.objectiveMask, goal) && Walks(m, layout, start, goal)
  }

  function Neighbors(column: nat, row: nat, width: nat, height: nat): seq<(nat, nat)> {
    (if column > 0 then [(column - 1, row)] else [])
    + (if column + 1 < width then [(column + 1, row)] else [])
    + (if row > 0 then [(column, row - 1)] else [])
    + (if row + 1 < height then [(column, row + 1)] else [])
  }

  function NeighborsOf(m: ArenaMap, k: nat): seq<(nat, nat)>
    requires m.widthTiles > 0
  {
    var at := CoordOf(m, k);
    Neighbors(at.0, at.1, m.widthTiles, m.heightTiles)
  }

  /** The neighbours the source lists are the tiles of the board that share an edge. */
  lemma NeighborsAreAdjacent(m: ArenaMap, k: nat, c: nat, r: nat)
    requires m.widthTiles > 0 && k < TileCount(m)
    ensures (c, r) in NeighborsOf(m, k)
       <==> c < m.widthTiles && r < m.heightTiles && Adjacent(m, k, TileIndex(m.widthTiles, c, r))
  {
    var row := RowOfTile(m, k);
    if c < m.widthTiles {
      TileIndexSplits(m.widthTiles, c, r);
    }
  }

  lemma WalkOn(m: ArenaMap, layout: Layout, a: nat, b: nat, c: nat)
    requires Searchable(m, layout) && Walks(m, layout, a, b) && Adjacent(m, b, c) && Open(m, layout, c)
    ensures Walks(m, layout, a, c)
  {
    var path :| IsWalk(m, layout, path) && path[0] == a && path[|path| - 1] == b;
    var longer := path + [c];
    assert IsWalk(m, layout, longer) && longer[0] == a && longer[|longer| - 1] == c;
  }

  // ----- the search

  /** A visited tile that is done: not an objective, and all its open neighbours are visited. */
  ghost predicate Explored(m: ArenaMap, layout: Layout, visited: seq<bool>, k: nat)
    requires Searchable(m, layout) && |visited| == |layout|
  {
    && !HasTile(m.objectiveMask, k)
    && forall j :: 0 <= j < |visited| && Adjacent(m, k, j) && Open(m, layout, j) ==> visited[j]
  }

  /** What the search knows between two rounds. */
  ghost predicate Frontier(m: ArenaMap, layout: Layout, start: nat, visited: seq<bool>, queue: seq<nat>)
    requires Searchable(m, layout)
  {
    && |visited| == |layout| && start < |visited| && visited[start]
    && (forall q <- queue :: q < |visited| && visited[q])
    && (forall k :: 0 <= k < |visited| && visited[k] ==> Walks(m, layout, start, k))
    && (forall k :: 0 <= k < |visited| && visited[k] && k !in queue ==> Explored(m, layout, visited, k))
  }

  /** When nothing is left to look at, no objective can be walked to. */
  lemma {:induction false} WalkStaysVisited(m: ArenaMap, layout: Layout, start: nat, visited: seq<bool>, path: seq<nat>)
    requires Searchable(m, layout) && Frontier(m, layout, start, visited, [])
    requires IsWalk(m, layout, path) && path[0] == start
    ensures path[|path| - 1] < |visited| && visited[path[|path| - 1]]
    decreases |path|
  {
    hide Adjacent, HasTile, Walks;
    if |path| > 1 {
      var n := |path| - 1;
      WalkStaysVisited(m, layout, start, visited, path[..n]);
      assert Explored(m, layout, visited, path[n - 1]);
    }
  }

  lemma ExhaustedMeansCutOff(m: ArenaMap, layout: Layout, start: nat, visited: seq<bool>)
    requires Searchable(m, layout) && Frontier(m, layout, start, visited, [])
    ensures !Reaches(m, layout, start)
  {
    forall goal: nat, path | HasTile(m.objectiveMask, goal) && IsWalk(m, layout, path) && path[0] == start
      ensures path[|path| - 1] != goal
    {
      WalkStaysVisited(m, layout, start, visited, path);
    }
  }

  function CountFalse(s: seq<bool>): nat {
    if s == [] then 0 else (if s[0] then 0 else 1) + CountFalse(s[1..])
  }

  lemma {:induction false} CountFalseDrops(s: seq<bool>, k: nat)
    requires k < |s| && !s[k]
    ensures CountFalse(s[k := true]) == CountFalse(s) - 1
  {
    if k > 0 {
      CountFalseDrops(s[1..], k - 1);
      assert s[k := true][1..] == s[1..][k - 1 := true];
    }
  }

  /** Between two neighbours of `index`: like `Frontier`, with `index` done up to `pending`. */
  ghost predicate Midway(m: ArenaMap, layout: Layout, start: nat, visited: seq<bool>, queue: seq<nat>, index: nat,
                         pending: seq<(nat, nat)>)
    requires Searchable(m, layout)
  {
    && |visited| == |layout| && start < |visited| && visited[start] && index < |visited| && visited[index]
    && !HasTile(m.objectiveMask, index)
    && (forall q <- queue :: q < |visited| && visited[q])
    && (forall k :: 0 <= k < |visited| && visited[k] ==> Walks(m, layout, start, k))
    && (forall k :: 0 <= k < |visited| && visited[k] && k !in queue && k != index ==> Explored(m, layout, visited, k))
    && (forall j :: 0 <= j < |visited| && Adjacent(m, index, j) && Open(m, layout, j)
          ==> visited[j] || CoordOf(m, j) in pending)
  }

  lemma AdjacentIsListed(m: ArenaMap, k: nat, j: nat)
    requires m.widthTiles > 0 && k < TileCount(m) && j < TileCount(m) && Adjacent(m, k, j)
    ensures CoordOf(m, j) in NeighborsOf(m, k)
  {
    var row := RowOfTile(m, j);
    TileIndexJoins(m.widthTiles, j);
    NeighborsAreAdjacent(m, k, ColumnOf(m.widthTiles, j), row);
  }

  lemma StartMidway(m: ArenaMap, layout: Layout, start: nat, visited: seq<bool>, queue: seq<nat>)
    requires Searchable(m, layout) && queue != [] && Frontier(m, layout, start, visited, queue)
    requires !HasTile(m.objectiveMask, queue[0])
    ensures queue[0] < |visited|
    ensures Midway(m, layout, start, visited, queue[1..], queue[0],
                   NeighborsOf(m, queue[0]))
  {
    hide Explored, Open, Adjacent, HasTile, Walks, NeighborsOf, CoordOf;
    var index := queue[0];
    assert index in queue;
    assert queue == [index] + queue[1..];
    forall q | q in queue[1..] ensures q < |visited| && visited[q] {
      assert q in queue;
    }
    forall j: nat | j < |visited| && Adjacent(m, index, j)
      ensures CoordOf(m, j) in NeighborsOf(m, index)
    {
      AdjacentIsListed(m, index, j);
    }
  }

  lemma SkipNeighbor(m: ArenaMap, layout: Layout, start: nat, visited: seq<bool>, queue: seq<nat>, index: nat,
                     pending: seq<(nat, nat)>, next: nat)
    requires Searchable(m, layout) && pending != [] && Midway(m, layout, start, visited, queue, index, pending)
    requires next == TileIndex(m.widthTiles, pending[0].0, pending[0].1) < |visited|
    requires visited[next] || !Open(m, layout, next)
    ensures Midway(m, layout, start, visited, queue, index, pending[1..])
  {
    hide Explored, Open, Adjacent, HasTile, Walks;
    assert pending == [pending[0]] + pending[1..];
    forall j: nat | j < |visited| && CoordOf(m, j) == pending[0] ensures j == next {
      TileIndexJoins(m.widthTiles, j);
    }
  }

  lemma AddNeighbor(m: ArenaMap, layout: Layout, start: nat, visited: seq<bool>, queue: seq<nat>, index: nat,
                    pending: seq<(nat, nat)>, next: nat)
    requires Searchable(m, layout) && Midway(m, layout, start, visited, queue, index, pending)
    requires next < |visited| && !visited[next] && Open(m, layout, next) && Adjacent(m, index, next)
    ensures Midway(m, layout, start, visited[next := true], queue + [next], index, pending)
  {
    hide Open, Adjacent, HasTile, Walks, CoordOf;
    WalkOn(m, layout, start, index, next);
    var after := visited[next := true];
    forall k | 0 <= k < |after| && after[k] && k !in queue + [next] && k != index
      ensures Explored(m, layout, after, k)
    {
      assert next in queue + [next];
      assert Explored(m, layout, visited, k);
    }
  }

  /** The neighbour loop of one round. */
  method VisitNeighbors(m: ArenaMap, layout: Layout, ghost start: nat, visited: array<bool>, queue: seq<nat>,
                        index: nat)
    returns (longer: seq<nat>)
    requires Searchable(m, layout) && index < visited.Length
    requires Midway(m, layout, start, visited[..], queue, index,
                    NeighborsOf(m, index))
    modifies visited
    ensures Frontier(m, layout, start, visited[..], longer)
    ensures CountFalse(visited[..]) < CountFalse(old(visited[..]))
         || (CountFalse(visited[..]) == CountFalse(old(visited[..])) && longer == queue)
  {
    longer := queue;
    var pending := NeighborsOf(m, index);
    ghost var all := pending;
    while pending != []
      invariant Midway(m, layout, start, visited[..], longer, index, pending)
      invariant forall p <- pending :: p in all
      invariant CountFalse(visited[..]) < CountFalse(old(visited[..]))
             || (CountFalse(visited[..]) == CountFalse(old(visited[..])) && longer == queue)
      decreases |pending|
    {
      var (column, row) := pending[0];
      var next := TileIndex(m.widthTiles, column, row);
      NeighborOnBoard(m, index, column, row);
      if !visited[next] && HasTile(m.footprintMask, next) && layout[next] != Some(Pillar) {
        AddNeighbor(m, layout, start, visited[..], longer, index, pending, next);
        CountFalseDrops(visited[..], next);
        ghost var before := visited[..];
        visited[next] := true;
        assert visited[..] == before[next := true];
        longer := longer + [next];
      }
      SkipNeighbor(m, layout, start, visited[..], longer, index, pending, next);
      pending := pending[1..];
    }
  }

  lemma NeighborOnBoard(m: ArenaMap, k: nat, c: nat, r: nat)
    requires m.widthTiles > 0 && k < TileCount(m)
    requires (c, r) in NeighborsOf(m, k)
    ensures TileIndex(m.widthTiles, c, r) < TileCount(m) && Adjacent(m, k, TileIndex(m.widthTiles, c, r))
  {
    NeighborsAreAdjacent(m, k, c, r);
    TileIndexSplits(m.widthTiles, c, r);
    InArea(m.widthTiles, m.heightTiles, TileIndex(m.widthTiles, c, r));
  }

  lemma StartFrontier(m: ArenaMap, layout: Layout, start: nat, visited: seq<bool>)
    requires Searchable(m, layout) && |visited| == |layout| && start < |visited|
    requires forall k :: 0 <= k < |visited| ==> visited[k] == (k == start)
    ensures Frontier(m, layout, start, visited, [start])
  {
    assert IsWalk(m, layout, [start]) && [start][0] == start;
  }

  /** `path_exists_to_objective` answers true exactly when an objective tile can be walked to. */
  method PathExistsToObjective(m: ArenaMap, layout: Layout, start: nat) returns (found: bool)
    requires Searchable(m, layout) && start < TileCount(m)
    ensures found <==> Reaches(m, layout, start)
  {
    var visited := new bool[TileCount(m)](_ => false);
    var queue := [start];
    visited[start] := true;
    StartFrontier(m, layout, start, visited[..]);
    while queue != []
      invariant Frontier(m, layout, start, visited[..], queue)
      decreases CountFalse(visited[..]), |queue|
    {
      var index := queue[0];
      assert index in queue && Walks(m, layout, start, index);
      if HasTile(m.objectiveMask, index) {
        return true;
      }
      StartMidway(m, layout, start, visited[..], queue);
      queue := VisitNeighbors(m, layout, start, visited, queue[1..], index);
    }
    ExhaustedMeansCutOff(m, layout, start, visited[..]);
    found := false;
  }
}
