/** The file-level overview of the call graph: counts are conserved, levels are shortest distances. */
module FileOverview {
  import opened CallGraph
  import opened CallLevels
  import opened Ordering

  datatype FileNode = FileNode(functionCount: nat, outgoing: map<string, nat>, incoming: map<string, nat>, isRoot: bool)

  type Overview = map<string, FileNode>

  // ----- what the counters should say

  function FilesOf(g: Graph): set<string> { set k | k in g :: g[k].file }

  function SetOf(symbols: seq<string>): set<string> { set x | x in symbols }

  /** The functions of one file, among some of the nodes. */
  function InFile(g: Graph, some: set<string>, f: string): set<string>
    requires some <= g.Keys
  {
    set k | k in some && g[k].file == f
  }

  /** The calls that cross from one file to another. */
  function CrossCalls(g: Graph): set<Call> {
    set a, b | a in g && b in g[a].outgoing && b in g && g[a].file != g[b].file :: Call(a, b)
  }

  ghost predicate CallsWithin(g: Graph, calls: set<Call>) { forall c <- calls :: c.caller in g && c.callee in g }

  function Between(g: Graph, calls: set<Call>, a: string, b: string): set<Call>
    requires CallsWithin(g, calls)
  {
    set c | c in calls && g[c.caller].file == a && g[c.callee].file == b
  }

  function CountOf(m: map<string, nat>, f: string): nat { if f in m then m[f] else 0 }

  ghost predicate NoZeros(m: map<string, nat>) { forall f <- m :: m[f] > 0 }

  // ----- counting functions

  const EMPTY_NODE: FileNode := FileNode(0, map[], map[], false)

  /** `entry(..).or_insert_with(..)`. */
  function Entry(over: Overview, f: string): FileNode { if f in over then over[f] else EMPTY_NODE }

  function AddFunction(over: Overview, n: Node, roots: set<string>): Overview {
    var e := Entry(over, n.file);
    over[n.file := e.(functionCount := e.functionCount + 1, isRoot := e.isRoot || n.symbol in roots)]
  }

  ghost predicate HasRoot(g: Graph, roots: set<string>, some: set<string>) {
    exists k :: k in some && k in g && g[k].symbol in roots
  }

  ghost predicate FileCounted(g: Graph, roots: set<string>, some: set<string>, n: FileNode) {
    n.functionCount == |some| && (n.isRoot <==> HasRoot(g, roots, some)) && n.outgoing == map[] && n.incoming == map[]
  }

  ghost predicate FunctionsCounted(g: Graph, roots: set<string>, done: set<string>, over: Overview)
    requires done <= g.Keys
  {
    && over.Keys == (set k | k in done :: g[k].file)
    && forall f <- over :: FileCounted(g, roots, InFile(g, done, f), over[f])
  }

  lemma CountOneFile(g: Graph, roots: set<string>, some: set<string>, n: FileNode, k: string)
    requires k in g && k !in some && FileCounted(g, roots, some, n)
    ensures FileCounted(g, roots, some + {k},
                        n.(functionCount := n.functionCount + 1, isRoot := n.isRoot || g[k].symbol in roots))
  {
    assert HasRoot(g, roots, some + {k}) <==> HasRoot(g, roots, some) || g[k].symbol in roots by {
      if g[k].symbol in roots {
        assert k in some + {k};
      }
      if HasRoot(g, roots, some) {
        var x :| x in some && x in g && g[x].symbol in roots;
        assert x in some + {k};
      }
    }
  }

  lemma InFileGrows(g: Graph, done: set<string>, k: string, f: string)
    requires done <= g.Keys && k in g && k !in done
    ensures InFile(g, done + {k}, f) == if g[k].file == f then InFile(g, done, f) + {k} else InFile(g, done, f)
  {
  }

  lemma FilesGrow(g: Graph, done: set<string>, k: string)
    requires done <= g.Keys && k in g
    ensures (set x | x in done + {k} :: g[x].file) == (set x | x in done :: g[x].file) + {g[k].file}
  {
  }

  lemma CountOne(g: Graph, roots: set<string>, done: set<string>, over: Overview, k: string)
    requires done <= g.Keys && k in g && k !in done && FunctionsCounted(g, roots, done, over)
    ensures FunctionsCounted(g, roots, done + {k}, AddFunction(over, g[k], roots))
  {
    hide HasRoot, FileCounted, InFile;
    var more := AddFunction(over, g[k], roots);
    FilesGrow(g, done, k);
    forall f | f in more ensures FileCounted(g, roots, InFile(g, done + {k}, f), more[f]) {
      CountInFile(g, roots, done, over, k, f);
    }
  }

  lemma CountInFile(g: Graph, roots: set<string>, done: set<string>, over: Overview, k: string, f: string)
    requires done <= g.Keys && k in g && k !in done && FunctionsCounted(g, roots, done, over)
    requires f in AddFunction(over, g[k], roots)
    ensures FileCounted(g, roots, InFile(g, done + {k}, f), AddFunction(over, g[k], roots)[f])
  {
    hide HasRoot, FileCounted;
    InFileGrows(g, done, k, f);
    if f == g[k].file {
      if f !in over {
        assert InFile(g, done, f) == {};
        NothingCounted(g, roots);
      }
      CountOneFile(g, roots, InFile(g, done, f), Entry(over, f), k);
    }
  }

  lemma NothingCounted(g: Graph, roots: set<string>)
    ensures FileCounted(g, roots, {}, EMPTY_NODE)
  {
  }

  method CountFunctions(g: Graph, roots: set<string>) returns (over: Overview)
    ensures FunctionsCounted(g, roots, g.Keys, over)
  {
    hide FileCounted;
    over := map[];
    var rest := g.Keys;
    while rest != {}
      invariant rest <= g.Keys && FunctionsCounted(g, roots, g.Keys - rest, over)
      decreases |rest|
    {
      var k :| k in rest;
      CountOne(g, roots, g.Keys - rest, over, k);
      over := AddFunction(over, g[k], roots);
      assert g.Keys - rest + {k} == g.Keys - (rest - {k});
      rest := rest - {k};
    }
    assert g.Keys - rest == g.Keys;
  }

  // ----- counting calls

  function Bump(m: map<string, nat>, f: string): map<string, nat> { m[f := CountOf(m, f) + 1] }

  /** One crossing call: up in the source's outgoing and in the target's incoming. */
  function AddCrossing(over: Overview, a: string, b: string): Overview {
    var source := Entry(over, a);
    var mid := over[a := source.(outgoing := Bump(source.outgoing, b))];
    var target := Entry(mid, b);
    mid[b := target.(incoming := Bump(target.incoming, a))]
  }

  /** The call counters of one file count `calls`. */
  ghost predicate CountersRead(g: Graph, calls: set<Call>, f: string, n: FileNode)
    requires CallsWithin(g, calls)
  {
    && NoZeros(n.outgoing) && NoZeros(n.incoming)
    && (forall t :: CountOf(n.outgoing, t) == |Between(g, calls, f, t)|)
    && (forall t :: CountOf(n.incoming, t) == |Between(g, calls, t, f)|)
  }

  ghost predicate CallsCounted(g: Graph, base: Overview, calls: set<Call>, over: Overview)
    requires CallsWithin(g, calls)
  {
    && over.Keys == base.Keys
    && forall f <- over ::
      over[f] == base[f].(outgoing := over[f].outgoing, incoming := over[f].incoming)
        && CountersRead(g, calls, f, over[f])
  }

  lemma BetweenGrows(g: Graph, calls: set<Call>, c: Call, a: string, b: string)
    requires CallsWithin(g, calls + {c}) && c !in calls
    ensures |Between(g, calls + {c}, a, b)|
         == |Between(g, calls, a, b)| + if g[c.caller].file == a && g[c.callee].file == b then 1 else 0
  {
    if g[c.caller].file == a && g[c.callee].file == b {
      assert Between(g, calls + {c}, a, b) == Between(g, calls, a, b) + {c};
    } else {
      assert Between(g, calls + {c}, a, b) == Between(g, calls, a, b);
    }
  }

  lemma BumpCounts(m: map<string, nat>, f: string, t: string)
    ensures CountOf(Bump(m, f), t) == CountOf(m, t) + if t == f then 1 else 0
    ensures NoZeros(m) ==> NoZeros(Bump(m, f))
  {
  }

  lemma CountersAdvance(g: Graph, calls: set<Call>, f: string, n: FileNode, c: Call)
    requires CallsWithin(g, calls + {c}) && c !in calls && CountersRead(g, calls, f, n)
    ensures var a, b := g[c.caller].file, g[c.callee].file;
            CountersRead(g, calls + {c}, f, n.(outgoing := if f == a then Bump(n.outgoing, b) else n.outgoing,
                                              incoming := if f == b then Bump(n.incoming, a) else n.incoming))
  {
    hide Between, Bump, CountOf, NoZeros;
    var a, b := g[c.caller].file, g[c.callee].file;
    var next := n.(outgoing := if f == a then Bump(n.outgoing, b) else n.outgoing,
                   incoming := if f == b then Bump(n.incoming, a) else n.incoming);
    BumpCounts(n.outgoing, b, b);
    BumpCounts(n.incoming, a, a);
    forall t
      ensures CountOf(next.outgoing, t) == |Between(g, calls + {c}, f, t)|
      ensures CountOf(next.incoming, t) == |Between(g, calls + {c}, t, f)|
    {
      BetweenGrows(g, calls, c, f, t);
      BetweenGrows(g, calls, c, t, f);
      BumpCounts(n.outgoing, b, t);
      BumpCounts(n.incoming, a, t);
    }
  }

  lemma CountCrossing(g: Graph, base: Overview, calls: set<Call>, over: Overview, c: Call)
    requires CallsWithin(g, calls + {c}) && c !in calls && CallsCounted(g, base, calls, over)
    requires g[c.caller].file in over && g[c.callee].file in over && g[c.caller].file != g[c.callee].file
    ensures CallsCounted(g, base, calls + {c}, AddCrossing(over, g[c.caller].file, g[c.callee].file))
  {
    hide CountersRead, Bump;
    var a, b := g[c.caller].file, g[c.callee].file;
    forall f | f in over ensures CountersRead(g, calls + {c}, f, AddCrossing(over, a, b)[f]) {
      CountersAdvance(g, calls, f, over[f], c);
    }
  }

  lemma NothingCrossed(g: Graph, base: Overview)
    requires forall f <- base :: base[f].outgoing == map[] && base[f].incoming == map[]
    ensures CallsWithin(g, CrossCalls(g)) && CallsCounted(g, base, CrossCalls(g) - CrossCalls(g), base)
  {
    var none := CrossCalls(g) - CrossCalls(g);
    forall f, t ensures Between(g, none, f, t) == {} {
    }
  }

  method CountCrossings(g: Graph, base: Overview) returns (over: Overview)
    requires base.Keys == FilesOf(g)
    requires forall f <- base :: base[f].outgoing == map[] && base[f].incoming == map[]
    ensures CallsCounted(g, base, CrossCalls(g), over)
  {
    hide CountersRead, AddCrossing;
    over := base;
    var rest := CrossCalls(g);
    NothingCrossed(g, base);
    while rest != {}
      invariant rest <= CrossCalls(g) && CallsCounted(g, base, CrossCalls(g) - rest, over)
      decreases |rest|
    {
      var c :| c in rest;
      assert CrossCalls(g) - rest + {c} == CrossCalls(g) - (rest - {c});
      CountCrossing(g, base, CrossCalls(g) - rest, over, c);
      over := AddCrossing(over, g[c.caller].file, g[c.callee].file);
      rest := rest - {c};
    }
    assert CrossCalls(g) - rest == CrossCalls(g);
  }

  /** What one entry of the overview stands for. */
  ghost predicate FileReads(g: Graph, roots: set<string>, f: string, n: FileNode)
    requires CallsWithin(g, CrossCalls(g))
  {
    && n.functionCount == |InFile(g, g.Keys, f)|
    && (n.isRoot <==> HasRoot(g, roots, InFile(g, g.Keys, f)))
    && CountersRead(g, CrossCalls(g), f, n)
  }

  /** What `build_overview_graph` should return. */
  ghost predicate Overviews(g: Graph, roots: set<string>, over: Overview) {
    over.Keys == FilesOf(g) && CallsWithin(g, CrossCalls(g)) && forall f <- over :: FileReads(g, roots, f, over[f])
  }

  /** `build_overview_graph`: each counter is the number of functions, or of crossing calls, it stands for. */
  method BuildOverviewGraph(result: BuildResult) returns (over: Overview)
    ensures Overviews(result.nodes, SetOf(result.roots), over)
  {
    hide CrossCalls, Between, InFile, CountersRead, HasRoot;
    var base := CountFunctions(result.nodes, SetOf(result.roots));
    over := CountCrossings(result.nodes, base);
    CrossCallsWithin(result.nodes);
  }

  /** The calls from functions of one file to functions of another. */
  ghost function FileCalls(g: Graph, a: string, b: string): set<Call> {
    set x, y | x in g && y in g[x].outgoing && y in g && g[x].file == a && g[y].file == b :: Call(x, y)
  }

  /**
   What one entry of the overview says: how many functions the file has, whether one of them is a root, and for
   each other file how many calls go there and come from there.
   */
  lemma OverviewReads(g: Graph, roots: set<string>, over: Overview, f: string)
    requires Overviews(g, roots, over)
    ensures f in over <==> exists k :: k in g && g[k].file == f
    ensures f in over ==> over[f].functionCount == |set k | k in g && g[k].file == f|
    ensures f in over ==> (over[f].isRoot <==> exists k :: k in g && g[k].file == f && g[k].symbol in roots)
    ensures f in over ==> forall t :: t != f ==>
              && CountOf(over[f].outgoing, t) == |FileCalls(g, f, t)|
              && CountOf(over[f].incoming, t) == |FileCalls(g, t, f)|
              && (t in over[f].outgoing <==> FileCalls(g, f, t) != {})
              && (t in over[f].incoming <==> FileCalls(g, t, f) != {})
    ensures f in over ==> f !in over[f].outgoing && f !in over[f].incoming
  {
    assert f in over.Keys <==> f in FilesOf(g);
    if f in over {
      assert FileReads(g, roots, f, over[f]);
      assert InFile(g, g.Keys, f) == set k | k in g && g[k].file == f;
      forall t
        ensures t != f ==> Between(g, CrossCalls(g), f, t) == FileCalls(g, f, t)
        ensures t != f ==> Between(g, CrossCalls(g), t, f) == FileCalls(g, t, f)
      {
      }
      assert Between(g, CrossCalls(g), f, f) == {};
    }
  }

  lemma CrossCallsWithin(g: Graph)
    ensures CallsWithin(g, CrossCalls(g))
  {
  }

  // ----- conservation

  /** The sum of `count` over some keys. */
  ghost function Total(keys: set<string>, count: string -> nat): nat
    decreases |keys|
  {
    if keys == {} then 0 else count(First(keys)) + Total(keys - {First(keys)}, count)
  }

  lemma {:induction false} SameTotal(keys: set<string>, a: string -> nat, b: string -> nat)
    requires forall k <- keys :: a(k) == b(k)
    ensures Total(keys, a) == Total(keys, b)
    decreases |keys|
  {
    if keys != {} {
      SameTotal(keys - {First(keys)}, a, b);
    }
  }

  ghost function Class<T(!new)>(items: set<T>, key: T -> string, k: string): set<T> {
    set x | x in items && key(x) == k
  }

  /** Sorting items into classes loses none and counts none twice. */
  lemma {:induction false} Partition<T(!new)>(items: set<T>, keys: set<string>, key: T -> string)
    requires forall x <- items :: key(x) in keys
    ensures Total(keys, k => |Class(items, key, k)|) == |items|
    decreases |keys|
  {
    hide Class, First;
    if keys == {} {
      assert items == {};
    } else {
      hide Total;
      var k := First(keys);
      ClassAndRest(items, keys, key, k);
      Partition(items - Class(items, key, k), keys - {k}, key);
      ClassTakenOut(items, keys, key);
    }
  }

  lemma ClassTakenOut<T(!new)>(items: set<T>, keys: set<string>, key: T -> string)
    requires keys != {}
    ensures var k := First(keys);
            var rest := items - Class(items, key, k);
            Total(keys, j => |Class(items, key, j)|)
            == |Class(items, key, k)| + Total(keys - {k}, j => |Class(rest, key, j)|)
  {
    hide Class, First;
    var k := First(keys);
    var rest := items - Class(items, key, k);
    forall j | j in keys - {k} ensures |Class(items, key, j)| == |Class(rest, key, j)| {
      ClassOfRest(items, key, k, j);
    }
    SameTotal(keys - {k}, j => |Class(items, key, j)|, j => |Class(rest, key, j)|);
  }

  /** A class and the other items make up all items. */
  lemma ClassAndRest<T(!new)>(items: set<T>, keys: set<string>, key: T -> string, k: string)
    requires forall x <- items :: key(x) in keys
    ensures |items| == |Class(items, key, k)| + |items - Class(items, key, k)|
    ensures forall x <- items - Class(items, key, k) :: key(x) in keys - {k}
  {
    assert items == Class(items, key, k) + (items - Class(items, key, k));
  }

  lemma ClassOfRest<T(!new)>(items: set<T>, key: T -> string, k: string, j: string)
    requires j != k
    ensures Class(items - Class(items, key, k), key, j) == Class(items, key, j)
  {
  }

  function FileOf(g: Graph, k: string): string { if k in g then g[k].file else "" }

  function FunctionsIn(over: Overview, f: string): nat { Entry(over, f).functionCount }

  /** The function counts of the files add up to the number of functions. */
  lemma FunctionCountsAddUp(g: Graph, roots: set<string>, over: Overview)
    requires Overviews(g, roots, over)
    ensures Total(over.Keys, f => FunctionsIn(over, f)) == |g.Keys|
  {
    hide CountersRead, HasRoot, Total;
    var key := k => FileOf(g, k);
    Partition(g.Keys, over.Keys, key);
    forall f | f in over ensures FunctionsIn(over, f) == |Class(g.Keys, key, f)| {
      assert FileReads(g, roots, f, over[f]);
      assert InFile(g, g.Keys, f) == Class(g.Keys, key, f);
    }
    SameTotal(over.Keys, f => FunctionsIn(over, f), f => |Class(g.Keys, key, f)|);
  }

  /** Each pair of files is counted once on each side, and no file counts itself. */
  lemma CrossingsAgree(g: Graph, roots: set<string>, over: Overview, a: string, b: string)
    requires Overviews(g, roots, over) && a in over && b in over
    ensures CountOf(over[a].outgoing, b) == CountOf(over[b].incoming, a) == |Between(g, CrossCalls(g), a, b)|
    ensures b in over[a].outgoing <==> a in over[b].incoming
    ensures a !in over[a].outgoing
  {
    hide HasRoot, InFile;
    assert FileReads(g, roots, a, over[a]) && FileReads(g, roots, b, over[b]);
    assert Between(g, CrossCalls(g), a, a) == {};
    assert CountOf(over[a].outgoing, a) == 0;
  }

  ghost function SumOf(m: map<string, nat>): nat { Total(m.Keys, f => CountOf(m, f)) }

  ghost function CrossingsFrom(over: Overview, f: string): nat { SumOf(Entry(over, f).outgoing) }

  /** All outgoing counters together count every crossing call exactly once. */
  lemma CrossingsAddUp(g: Graph, roots: set<string>, over: Overview)
    requires Overviews(g, roots, over)
    ensures Total(over.Keys, f => CrossingsFrom(over, f)) == |CrossCalls(g)|
  {
    hide CountersRead, HasRoot, Total, SumOf, InFile;
    var source := (c: Call) => FileOf(g, c.caller);
    Partition(CrossCalls(g), over.Keys, source);
    forall f | f in over ensures CrossingsFrom(over, f) == |Class(CrossCalls(g), source, f)| {
      FileCrossings(g, roots, over, f, source);
    }
    SameTotal(over.Keys, f => CrossingsFrom(over, f), f => |Class(CrossCalls(g), source, f)|);
  }

  lemma FileCrossings(g: Graph, roots: set<string>, over: Overview, f: string, source: Call -> string)
    requires Overviews(g, roots, over) && f in over
    requires forall c <- CrossCalls(g) :: source(c) == g[c.caller].file
    ensures SumOf(over[f].outgoing) == |Class(CrossCalls(g), source, f)|
  {
    hide HasRoot, InFile, Total;
    assert FileReads(g, roots, f, over[f]);
    var items := Class(CrossCalls(g), source, f);
    var target := (c: Call) => FileOf(g, c.callee);
    var out := over[f].outgoing;
    forall t ensures Class(items, target, t) == Between(g, CrossCalls(g), f, t) {
    }
    forall c | c in items ensures target(c) in out.Keys {
      assert c in Between(g, CrossCalls(g), f, target(c));
    }
    Partition(items, out.Keys, target);
    SameTotal(out.Keys, t => CountOf(out, t), t => |Class(items, target, t)|);
  }

  // ----- levels

  function EntryFiles(over: Overview): set<string> { set f | f in over && over[f].isRoot }

  function FileRoots(over: Overview): (roots: set<string>)
    ensures roots <= over.Keys && (over.Keys != {} ==> roots != {})
  {
    if EntryFiles(over) != {} then EntryFiles(over) else
      var orphans := set f | f in over && over[f].incoming == map[];
      if orphans != {} then orphans else FirstOrNone(over.Keys)
  }

  function FileSuccessors(over: Overview): Successors { map f | f in over :: over[f].outgoing.Keys }

  /** `compute_overview_levels`. */
  method ComputeOverviewLevels(over: Overview) returns (levels: Levels)
    ensures var next, roots := FileSuccessors(over), Sorted(FileRoots(over));
            && (forall x :: x in levels <==> x in over || Reached(next, roots, x))
            && forall x <- levels :: if Reached(next, roots, x) then IsDistance(next, roots, x, levels[x])
              else levels[x] == 0
  {
    hide IsDistance, Reached;
    var spread := BreadthFirst(FileSuccessors(over), Sorted(FileRoots(over)));
    levels := FillWithZero(over.Keys, spread);
  }

  /** When every function is reachable from the roots, every file is, so the level fill adds nothing. */
  lemma EveryFileIsReached(g: Graph, roots: seq<string>, over: Overview)
    requires AllReachable(g, roots) && Consistent(g) && Overviews(g, SetOf(roots), over)
    ensures forall f <- over :: Reached(FileSuccessors(over), Sorted(FileRoots(over)), f)
  {
    hide Reached, Overviews, FileSuccessors, FileRoots, Sorted;
    var next, fileRoots := FileSuccessors(over), Sorted(FileRoots(over));
    var s := set k | k in g && Reached(next, fileRoots, g[k].file);
    forall r | r in roots ensures r in s {
      RootFileIsReached(g, roots, over, r);
    }
    forall a, b | a in s && a in g && b in g[a].outgoing && b in g ensures b in s {
      CallReachesFile(g, roots, over, a, b);
    }
    assert Closed(g, s);
    FilesHaveFunctions(g, roots, over);
  }

  lemma FilesHaveFunctions(g: Graph, roots: seq<string>, over: Overview)
    requires Overviews(g, SetOf(roots), over)
    ensures forall f <- over :: exists k :: k in g && g[k].file == f
  {
  }

  lemma CallReachesFile(g: Graph, roots: seq<string>, over: Overview, a: string, b: string)
    requires Overviews(g, SetOf(roots), over) && a in g && b in g[a].outgoing && b in g
    requires Reached(FileSuccessors(over), Sorted(FileRoots(over)), g[a].file)
    ensures Reached(FileSuccessors(over), Sorted(FileRoots(over)), g[b].file)
  {
    hide Sorted, FileRoots, InFile, HasRoot, Within;
    var next, fileRoots := FileSuccessors(over), Sorted(FileRoots(over));
    if g[a].file != g[b].file {
      assert FileReads(g, SetOf(roots), g[a].file, over[g[a].file]);
      assert Call(a, b) in Between(g, CrossCalls(g), g[a].file, g[b].file);
      assert CountOf(over[g[a].file].outgoing, g[b].file) > 0;
      var d: nat :| Within(next, fileRoots, g[a].file, d);
      Extend(next, fileRoots, g[a].file, d, g[b].file);
    }
  }

  lemma RootFileIsReached(g: Graph, roots: seq<string>, over: Overview, r: string)
    requires Consistent(g) && Overviews(g, SetOf(roots), over) && r in roots && r in g
    ensures Reached(FileSuccessors(over), Sorted(FileRoots(over)), g[r].file)
  {
    hide CountersRead, CrossCalls;
    var f, next, fileRoots := g[r].file, FileSuccessors(over), Sorted(FileRoots(over));
    assert FileReads(g, SetOf(roots), f, over[f]);
    assert r in InFile(g, g.Keys, f) && over[f].isRoot;
    assert f in EntryFiles(over) && f in FileRoots(over);
    assert Chain(next, fileRoots, [f]) && Within(next, fileRoots, f, 0);
  }
}
