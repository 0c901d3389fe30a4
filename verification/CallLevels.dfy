/** Breadth-first levels of the call graph: every level is a shortest call distance from the roots. */
module CallLevels {
  import opened CallGraph
  import opened Ordering

  /** Who follows whom. */
  type Successors = map<string, set<string>>

  predicate Follows(next: Successors, a: string, b: string) { a in next && b in next[a] }

  /** A chain of calls starting at a root. */
  ghost predicate Chain(next: Successors, roots: seq<string>, path: seq<string>) {
    && path != [] && path[0] in roots
    && forall i :: 0 < i < |path| ==> Follows(next, path[i - 1], path[i])
  }

  /** A chain with `d` calls ends at `x`. */
  ghost predicate Within(next: Successors, roots: seq<string>, x: string, d: nat) {
    exists path :: Chain(next, roots, path) && path[|path| - 1] == x && |path| == d + 1
  }

  ghost predicate Reached(next: Successors, roots: seq<string>, x: string) {
    exists d: nat :: Within(next, roots, x, d)
  }

  /** `d` is the fewest calls from a root to `x`. */
  ghost predicate IsDistance(next: Successors, roots: seq<string>, x: string, d: nat) {
    Within(next, roots, x, d) && forall e: nat :: Within(next, roots, x, e) ==> d <= e
  }

  lemma Extend(next: Successors, roots: seq<string>, a: string, d: nat, b: string)
    requires Within(next, roots, a, d) && Follows(next, a, b)
    ensures Within(next, roots, b, d + 1)
  {
    var path :| Chain(next, roots, path) && path[|path| - 1] == a && |path| == d + 1;
    assert Chain(next, roots, path + [b]);
  }

  type Levels = map<string, nat>

  /** What a level map and its queue satisfy between two rounds. */
  ghost predicate LevelInvariant(next: Successors, roots: seq<string>, levels: Levels, queue: seq<string>) {
    && (forall r <- roots :: r in levels && levels[r] == 0)
    && (forall x <- levels :: Within(next, roots, x, levels[x]))
    && (forall q <- queue :: q in levels)
    && (forall i, j :: 0 <= i < j < |queue| ==> levels[queue[i]] <= levels[queue[j]])
    && (queue != [] ==> forall x <- levels :: levels[x] <= levels[queue[0]] + 1)
    && (forall a, b :: a in levels && a !in queue && Follows(next, a, b) ==> b in levels && levels[b] <= levels[a] + 1)
  }

  /** With an empty queue every chain is matched by a level. */
  lemma {:induction false} LevelsBound(next: Successors, roots: seq<string>, levels: Levels, path: seq<string>)
    requires LevelInvariant(next, roots, levels, []) && Chain(next, roots, path)
    ensures path[|path| - 1] in levels && levels[path[|path| - 1]] <= |path| - 1
    decreases |path|
  {
    if |path| > 1 {
      var n := |path| - 1;
      LevelsBound(next, roots, levels, path[..n]);
      assert Follows(next, path[n - 1], path[n]);
    }
  }

  lemma LevelsAreDistances(next: Successors, roots: seq<string>, levels: Levels)
    requires LevelInvariant(next, roots, levels, [])
    ensures forall x :: x in levels <==> Reached(next, roots, x)
    ensures forall x <- levels :: IsDistance(next, roots, x, levels[x])
  {
    forall x, e: nat | Within(next, roots, x, e) ensures x in levels && levels[x] <= e {
      var path :| Chain(next, roots, path) && path[|path| - 1] == x && |path| == e + 1;
      LevelsBound(next, roots, levels, path);
    }
  }

  /** Between two callees of `at`: those still to come are in `pending`. */
  ghost predicate HalfDone(next: Successors, roots: seq<string>, levels: Levels, queue: seq<string>, at: string,
                           pending: seq<string>)
  {
    && (forall r <- roots :: r in levels && levels[r] == 0)
    && (forall x <- levels :: Within(next, roots, x, levels[x]))
    && at in levels
    && (forall q <- queue :: q in levels && levels[at] <= levels[q])
    && (forall i, j :: 0 <= i < j < |queue| ==> levels[queue[i]] <= levels[queue[j]])
    && (forall x <- levels :: levels[x] <= levels[at] + 1)
    && (forall a, b :: a in levels && a !in queue && a != at && Follows(next, a, b) ==>
      b in levels && levels[b] <= levels[a] + 1)
    && (forall b :: Follows(next, at, b) ==> b in levels || b in pending)
  }

  lemma BeginHalf(next: Successors, roots: seq<string>, levels: Levels, queue: seq<string>, pending: seq<string>)
    requires queue != [] && LevelInvariant(next, roots, levels, queue)
    requires forall b :: Follows(next, queue[0], b) ==> b in pending
    ensures HalfDone(next, roots, levels, queue[1..], queue[0], pending)
  {
    assert queue == [queue[0]] + queue[1..] && queue[0] in queue;
    forall q | q in queue[1..] ensures levels[queue[0]] <= levels[q] {
      var j :| 0 <= j < |queue[1..]| && queue[1..][j] == q;
      assert queue[j + 1] == q;
    }
  }

  lemma EndHalf(next: Successors, roots: seq<string>, levels: Levels, queue: seq<string>, at: string)
    requires HalfDone(next, roots, levels, queue, at, [])
    ensures LevelInvariant(next, roots, levels, queue)
  {
    if queue != [] {
      assert queue[0] in queue;
    }
  }

  lemma SkipSeen(next: Successors, roots: seq<string>, levels: Levels, queue: seq<string>, at: string,
                 pending: seq<string>)
    requires HalfDone(next, roots, levels, queue, at, pending) && pending != [] && pending[0] in levels
    ensures HalfDone(next, roots, levels, queue, at, pending[1..])
  {
    assert pending == [pending[0]] + pending[1..];
  }

  lemma AddLevel(next: Successors, roots: seq<string>, levels: Levels, queue: seq<string>, at: string,
                 pending: seq<string>, b: string)
    requires HalfDone(next, roots, levels, queue, at, pending) && Follows(next, at, b) && b !in levels
    ensures HalfDone(next, roots, levels[b := levels[at] + 1], queue + [b], at, pending)
  {
    Extend(next, roots, at, levels[at], b);
    var more := levels[b := levels[at] + 1];
    assert b in queue + [b] && b != at;
    forall i, j | 0 <= i < j < |queue + [b]| ensures more[(queue + [b])[i]] <= more[(queue + [b])[j]] {
      assert (queue + [b])[i] in queue && (queue + [b])[i] in levels;
      if j < |queue| {
        assert (queue + [b])[j] in queue;
      }
    }
  }

  /** The callee loop of one round. */
  method SpreadFrom(next: Successors, ghost roots: seq<string>, levels: Levels, queue: seq<string>, at: string)
    returns (more: Levels, longer: seq<string>)
    requires at in levels
    requires HalfDone(next, roots, levels, queue, at, Sorted(if at in next then next[at] else {}))
    ensures LevelInvariant(next, roots, more, longer)
    ensures (more == levels && longer == queue) || levels.Keys < more.Keys
    ensures forall x <- more :: x in levels || exists a :: Follows(next, a, x)
  {
    hide Within, Sorted;
    more, longer := levels, queue;
    var pending := Sorted(if at in next then next[at] else {});
    SortedFollows(next, at);
    while pending != []
      invariant forall b <- pending :: Follows(next, at, b)
      invariant HalfDone(next, roots, more, longer, at, pending)
      invariant (more == levels && longer == queue) || levels.Keys < more.Keys
      invariant forall x <- more :: x in levels || exists a :: Follows(next, a, x)
      decreases |pending|
    {
      var b := pending[0];
      assert b in pending && Follows(next, at, b);
      if b !in more {
        AddLevel(next, roots, more, longer, at, pending, b);
        more, longer := more[b := more[at] + 1], longer + [b];
      }
      SkipSeen(next, roots, more, longer, at, pending);
      pending := pending[1..];
    }
    EndHalf(next, roots, more, longer, at);
  }

  lemma SortedFollows(next: Successors, at: string)
    ensures forall b :: b in Sorted(if at in next then next[at] else {}) <==> Follows(next, at, b)
  {
  }

  ghost function AllTargets(next: Successors): set<string> { set a, b | a in next && b in next[a] :: b }

  /** The roots at level 0, one after another. */
  method StartLevels(next: Successors, roots: seq<string>) returns (levels: Levels)
    ensures LevelInvariant(next, roots, levels, roots)
    ensures forall x :: x in levels <==> x in roots
  {
    levels := map[];
    for i := 0 to |roots|
      invariant forall x :: x in levels <==> x in roots[..i]
      invariant forall x <- levels :: levels[x] == 0
    {
      levels := levels[roots[i] := 0];
    }
    assert roots[..|roots|] == roots;
    forall x | x in levels ensures Within(next, roots, x, 0) {
      assert Chain(next, roots, [x]);
    }
  }

  /** The loop both level functions of the source run: seed the roots, then spread. */
  method BreadthFirst(next: Successors, roots: seq<string>) returns (levels: Levels)
    ensures forall x :: x in levels <==> Reached(next, roots, x)
    ensures forall x <- levels :: IsDistance(next, roots, x, levels[x])
  {
    hide Within, IsDistance;
    levels := StartLevels(next, roots);
    var queue := roots;
    ghost var all := (set r | r in roots) + AllTargets(next);
    while queue != []
      invariant LevelInvariant(next, roots, levels, queue)
      invariant levels.Keys <= all
      decreases all - levels.Keys, |queue|
    {
      SortedFollows(next, queue[0]);
      BeginHalf(next, roots, levels, queue, Sorted(if queue[0] in next then next[queue[0]] else {}));
      levels, queue := SpreadFrom(next, roots, levels, queue[1..], queue[0]);
    }
    LevelsAreDistances(next, roots, levels);
  }

  /** The fallback fill: symbols without a level get level 0. */
  function FillWithZero(keys: set<string>, levels: Levels): Levels {
    map k | k in keys + levels.Keys :: if k in levels then levels[k] else 0
  }

  /** The calls that stay in the graph. */
  function Callees(g: Graph): Successors { map k | k in g :: g[k].outgoing * g.Keys }

  /** On a graph all of whose nodes are reachable from the roots, the fill adds nothing. */
  lemma FillIsIdle(g: Graph, roots: seq<string>)
    requires AllReachable(g, roots)
    ensures forall x :: x in g <==> Reached(Callees(g), roots, x)
  {
    var next := Callees(g);
    var s := set x | x in g && Reached(next, roots, x);
    forall r | r in roots ensures r in s {
      assert Chain(next, roots, [r]) && Within(next, roots, r, 0);
    }
    forall a, b | a in s && a in g && b in g[a].outgoing && b in g ensures b in s {
      var d: nat :| Within(next, roots, a, d);
      Extend(next, roots, a, d, b);
    }
    assert Closed(g, s);
    forall x | Reached(next, roots, x) ensures x in g {
      var d: nat :| Within(next, roots, x, d);
      var path :| Chain(next, roots, path) && path[|path| - 1] == x && |path| == d + 1;
      assert d > 0 ==> Follows(next, path[d - 1], path[d]);
    }
  }

  /** `compute_levels`; on what `build_graph` returns, every level is a shortest call distance. */
  method ComputeLevels(g: Graph, roots: seq<string>) returns (levels: Levels)
    ensures forall x :: x in levels <==> x in g || Reached(Callees(g), roots, x)
    ensures forall x <- levels :: if Reached(Callees(g), roots, x) then IsDistance(Callees(g), roots, x, levels[x])
      else levels[x] == 0
    ensures AllReachable(g, roots) ==>
      levels.Keys == g.Keys && forall x <- levels :: IsDistance(Callees(g), roots, x, levels[x])
  {
    hide IsDistance, Reached, AllReachable, Callees;
    var spread := BreadthFirst(Callees(g), roots);
    levels := FillWithZero(g.Keys, spread);
    if AllReachable(g, roots) {
      FillIsIdle(g, roots);
    }
  }
}
