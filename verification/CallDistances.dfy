/** Levels as lengths of call paths: what a step of a level is, among functions and among files. */
module CallDistances {
  import opened CallGraph
  import opened CallLevels
  import opened FileOverview

  predicate EndsAt(path: seq<string>, x: string, d: nat) { |path| == d + 1 && path[d] == x }

  /** Some path of this kind ends at `x` after `d` steps, and none does after fewer. */
  ghost predicate IsShortest(paths: iset<seq<string>>, x: string, d: nat) {
    && (exists path :: path in paths && EndsAt(path, x, d))
    && forall path, e: nat :: path in paths && EndsAt(path, x, e) ==> d <= e
  }

  lemma WithinEnds(next: Successors, roots: seq<string>, x: string, d: nat)
    ensures Within(next, roots, x, d) <==> exists path :: Chain(next, roots, path) && EndsAt(path, x, d)
  {
    hide Chain;
    if Within(next, roots, x, d) {
      var path :| Chain(next, roots, path) && path != [] && path[|path| - 1] == x && |path| == d + 1;
      assert EndsAt(path, x, d);
    }
    if path :| Chain(next, roots, path) && EndsAt(path, x, d) {
      assert path[|path| - 1] == x;
    }
  }

  lemma DistanceIsShortest(next: Successors, roots: seq<string>, paths: iset<seq<string>>, x: string, d: nat)
    requires forall path :: path in paths <==> Chain(next, roots, path)
    ensures IsDistance(next, roots, x, d) <==> IsShortest(paths, x, d)
  {
    hide Chain, Within, EndsAt;
    forall path, e: nat | path in paths && EndsAt(path, x, e) ensures Within(next, roots, x, e) {
      WithinEnds(next, roots, x, e);
    }
    forall e: nat | Within(next, roots, x, e) ensures exists path :: path in paths && EndsAt(path, x, e) {
      WithinEnds(next, roots, x, e);
    }
  }

  // ----- functions

  predicate CallsNode(g: Graph, a: string, b: string) { a in g && b in g && b in g[a].outgoing }

  /** Each function after the first is a node that the one before it calls. */
  ghost predicate IsCallPath(g: Graph, roots: seq<string>, path: seq<string>) {
    path != [] && path[0] in roots && forall i :: 0 < i < |path| ==> CallsNode(g, path[i - 1], path[i])
  }

  ghost function CallPaths(g: Graph, roots: seq<string>): iset<seq<string>> { iset path | IsCallPath(g, roots, path) }

  lemma CallIsStep(g: Graph, a: string, b: string)
    ensures CallsNode(g, a, b) <==> Follows(Callees(g), a, b)
  {
  }

  /** The level of a function is the length of a shortest path of calls from a root. */
  lemma LevelsAreCallPaths(g: Graph, roots: seq<string>, x: string, d: nat)
    ensures IsDistance(Callees(g), roots, x, d)
       <==> IsShortest(CallPaths(g, roots), x, d)
  {
    hide IsDistance, IsShortest, CallsNode, Follows;
    forall a, b ensures CallsNode(g, a, b) <==> Follows(Callees(g), a, b) {
      CallIsStep(g, a, b);
    }
    forall path ensures IsCallPath(g, roots, path) <==> Chain(Callees(g), roots, path) {
    }
    DistanceIsShortest(Callees(g), roots, CallPaths(g, roots), x, d);
  }

  // ----- files

  /** Each file after the first is another one that some function of the file before it calls into. */
  ghost predicate IsFilePath(g: Graph, fileRoots: seq<string>, path: seq<string>) {
    && path != [] && path[0] in fileRoots
    && forall i :: 0 < i < |path| ==> path[i - 1] != path[i] && FileCalls(g, path[i - 1], path[i]) != {}
  }

  ghost function FilePaths(g: Graph, fileRoots: seq<string>): iset<seq<string>> {
    iset path | IsFilePath(g, fileRoots, path)
  }

  lemma FileStep(g: Graph, roots: set<string>, over: Overview, a: string, b: string)
    requires Overviews(g, roots, over)
    ensures Follows(FileSuccessors(over), a, b) <==> a != b && FileCalls(g, a, b) != {}
  {
    OverviewReads(g, roots, over, a);
    if FileCalls(g, a, b) != {} {
      var c :| c in FileCalls(g, a, b);
      assert c.caller in g && g[c.caller].file == a;
    }
  }

  /** The level of a file is the length of a shortest path of calls between files. */
  lemma LevelsAreFilePaths(g: Graph, roots: set<string>, over: Overview, fileRoots: seq<string>, x: string, d: nat)
    requires Overviews(g, roots, over)
    ensures IsDistance(FileSuccessors(over), fileRoots, x, d)
       <==> IsShortest(FilePaths(g, fileRoots), x, d)
  {
    hide IsDistance, IsShortest, Overviews, FileCalls, FileSuccessors, Follows;
    forall a, b ensures Follows(FileSuccessors(over), a, b) <==> a != b && FileCalls(g, a, b) != {} {
      FileStep(g, roots, over, a, b);
    }
    forall path ensures IsFilePath(g, fileRoots, path) <==> Chain(FileSuccessors(over), fileRoots, path) {
    }
    DistanceIsShortest(FileSuccessors(over), fileRoots, FilePaths(g, fileRoots), x, d);
  }
}
