/** The backend call graph: linking calls, choosing roots, reachability and pruning. */
module CallGraph {
  import opened Ordering
  import opened Prelude

  /** A function of the backend and whom it calls, and is called by, by symbol. */
  datatype Node = Node(symbol: string, fullName: string, file: string, outgoing: set<string>, incoming: set<string>)

  type Graph = map<string, Node>

  /** The lines of one function body. */
  datatype Span = Span(symbol: string, bodyStart: nat, endLine: nat)

  datatype Occurrence = Occurrence(file: string, line: Option<nat>, symbol: string, definition: bool)

  // ----- which function a line belongs to

  predicate Encloses(s: Span, line: nat) { s.bodyStart <= line <= s.endLine }

  /** Lines from body start to end, never negative. */
  function Extent(s: Span): nat { if s.endLine >= s.bodyStart then s.endLine - s.bodyStart else 0 }

  /** `find_enclosing_symbol`: the first of the tightest spans around the line. */
  function FindEnclosing(spans: seq<Span>, line: nat): (r: Option<Span>)
    ensures r.None? <==> forall s <- spans :: !Encloses(s, line)
    ensures r.Some? ==> r.value in spans && Encloses(r.value, line)
                        && forall s <- spans :: Encloses(s, line) ==> Extent(r.value) <= Extent(s)
  {
    if spans == [] then None else
      var last := spans[|spans| - 1];
      var before := FindEnclosing(spans[..|spans| - 1], line);
      assert spans == spans[..|spans| - 1] + [last];
      if Encloses(last, line) && (before.None? || Extent(last) < Extent(before.value)) then Some(last) else before
  }

  // ----- linking

  type Spans = map<string, seq<Span>>

  /** Spans are computed from the nodes, so they name nodes. */
  ghost predicate SpansOfNodes(g: Graph, spans: Spans) {
    forall f, i :: f in spans && 0 <= i < |spans[f]| ==> spans[f][i].symbol in g
  }

  datatype Call = Call(caller: string, callee: string)

  /** The call an occurrence stands for, if any: a use of a known symbol inside another function. */
  function CallOf(g: Graph, spans: Spans, o: Occurrence): Option<Call> {
    if o.definition || o.file !in spans || o.line.None? then None else
      match FindEnclosing(spans[o.file], o.line.value)
      case None => None
      case Some(s) => if o.symbol in g && s.symbol != o.symbol then Some(Call(s.symbol, o.symbol)) else None
  }

  /** All the calls of a list of occurrences. */
  function CallsOf(g: Graph, spans: Spans, os: seq<Occurrence>): set<Call> {
    set o | o in os && CallOf(g, spans, o).Some? :: CallOf(g, spans, o).value
  }

  /** The nodes with exactly these calls added to both their edge sets. */
  ghost predicate LinkedWith(before: Graph, calls: set<Call>, after: Graph) {
    && after.Keys == before.Keys
    && forall k <- before ::
      && after[k] == before[k].(outgoing := after[k].outgoing, incoming := after[k].incoming)
      && (forall c :: c in after[k].outgoing <==> c in before[k].outgoing || Call(k, c) in calls)
      && (forall c :: c in after[k].incoming <==> c in before[k].incoming || Call(c, k) in calls)
  }

  lemma LinkOne(before: Graph, calls: set<Call>, now: Graph, call: Call)
    requires LinkedWith(before, calls, now) && call.caller in now && call.callee in now && call.caller != call.callee
    ensures var mid := now[call.caller := now[call.caller].(outgoing := now[call.caller].outgoing + {call.callee})];
            LinkedWith(before, calls + {call},
              mid[call.callee := mid[call.callee].(incoming := mid[call.callee].incoming + {call.caller})])
  {
  }

  /** The edge loop of `build_graph`: each call goes into the caller's and the callee's set. */
  method LinkCalls(g: Graph, spans: Spans, os: seq<Occurrence>) returns (nodes: Graph)
    requires SpansOfNodes(g, spans)
    ensures LinkedWith(g, CallsOf(g, spans, os), nodes)
  {
    nodes := g;
    for i := 0 to |os|
      invariant LinkedWith(g, CallsOf(g, spans, os[..i]), nodes)
    {
      var call := CallOf(g, spans, os[i]);
      NextCalls(g, spans, os, i);
      if call.Some? {
        var Call(caller, callee) := call.value;
        CallInGraph(g, spans, os[i]);
        LinkOne(g, CallsOf(g, spans, os[..i]), nodes, call.value);
        nodes := nodes[caller := nodes[caller].(outgoing := nodes[caller].outgoing + {callee})];
        nodes := nodes[callee := nodes[callee].(incoming := nodes[callee].incoming + {caller})];
      }
    }
    assert os[..|os|] == os;
  }

  lemma CallInGraph(g: Graph, spans: Spans, o: Occurrence)
    requires SpansOfNodes(g, spans) && CallOf(g, spans, o).Some?
    ensures var c := CallOf(g, spans, o).value; c.caller in g && c.callee in g && c.caller != c.callee
  {
    var s := FindEnclosing(spans[o.file], o.line.value).value;
    var i :| 0 <= i < |spans[o.file]| && spans[o.file][i] == s;
  }

  lemma NextCalls(g: Graph, spans: Spans, os: seq<Occurrence>, i: nat)
    requires i < |os|
    ensures CallsOf(g, spans, os[..i + 1])
         == CallsOf(g, spans, os[..i]) + match CallOf(g, spans, os[i]) case Some(c) => {c} case None => {}
  {
    assert os[..i + 1] == os[..i] + [os[i]];
  }

  /** Every node is filed under its own symbol, and the two edge sets mirror each other within the graph. */
  ghost predicate Consistent(g: Graph) {
    && (forall k <- g :: g[k].symbol == k)
    && (forall a, b :: a in g && b in g[a].outgoing ==> b in g && a in g[b].incoming)
    && (forall a, b :: b in g && a in g[b].incoming ==> a in g && b in g[a].outgoing)
  }

  /** The graph before linking: nodes under their symbols, no edges. */
  ghost predicate Fresh(g: Graph) {
    forall k <- g :: g[k].symbol == k && g[k].outgoing == {} && g[k].incoming == {}
  }

  lemma LinkedIsConsistent(g: Graph, spans: Spans, os: seq<Occurrence>, nodes: Graph)
    requires Fresh(g) && SpansOfNodes(g, spans) && LinkedWith(g, CallsOf(g, spans, os), nodes)
    ensures Consistent(nodes)
  {
    var calls := CallsOf(g, spans, os);
    forall c | c in calls ensures c.caller in g && c.callee in g {
      var o :| o in os && CallOf(g, spans, o).Some? && CallOf(g, spans, o).value == c;
      CallInGraph(g, spans, o);
    }
  }

  // ----- roots

  predicate Contains(s: string, part: string) {
    part <= s || (s != [] && Contains(s[1..], part))
  }

  predicate InEntryFile(n: Node, entries: set<string>) { n.file in entries }

  predicate Preferred(n: Node, entries: set<string>) { InEntryFile(n, entries) && !Contains(n.fullName, "::impl::") }

  function FirstOrNone(keys: set<string>): set<string> { if keys == {} then {} else {First(keys)} }

  /** The candidates `select_roots` falls back through, strictest first. */
  function RootSet(g: Graph, entries: set<string>): (roots: set<string>)
    ensures roots <= g.Keys && (g.Keys != {} ==> roots != {})
  {
    var uncalled := set k | k in g && Preferred(g[k], entries) && g[k].incoming == {};
    if uncalled != {} then uncalled else
      var preferred := set k | k in g && Preferred(g[k], entries);
      if preferred != {} then preferred else
        var entry := set k | k in g && InEntryFile(g[k], entries);
        if entry != {} then entry else
          var orphans := set k | k in g && g[k].incoming == {};
          if orphans != {} then orphans else FirstOrNone(g.Keys)
  }

  function SelectRoots(g: Graph, entries: set<string>): seq<string> { Sorted(RootSet(g, entries)) }

  // ----- reachability

  /** Closed under the calls that stay in the graph. */
  ghost predicate Closed(g: Graph, s: set<string>) {
    forall a, b :: a in s && a in g && b in g[a].outgoing && b in g ==> b in s
  }

  function Known(g: Graph, symbols: seq<string>): (kept: seq<string>)
    ensures forall x :: x in kept <==> x in symbols && x in g
  {
    if symbols == [] then [] else
      var rest := Known(g, symbols[1..]);
      assert symbols == [symbols[0]] + symbols[1..];
      if symbols[0] in g then [symbols[0]] + rest else rest
  }

  /** Every closed set holding the roots holds what was reached and what is queued. */
  ghost predicate Forced(g: Graph, roots: seq<string>, reachable: set<string>, queue: seq<string>) {
    forall s: set<string> :: (forall r <- roots :: r in s) && Closed(g, s) ==>
      reachable <= s && forall q <- queue :: q in s
  }

  /** The roots, and what reached nodes call, are reached or queued. */
  ghost predicate Pending(g: Graph, roots: seq<string>, reachable: set<string>, queue: seq<string>) {
    && (forall r <- roots :: r in reachable || r in queue)
    && forall a, b :: a in reachable && a in g && b in g[a].outgoing && b in g ==> b in reachable || b in queue
  }

  /** What a new node adds to the queue. */
  function Calls(g: Graph, symbol: string): (calls: seq<string>)
    ensures forall b :: b in calls <==> symbol in g && b in g[symbol].outgoing && b in g
  {
    if symbol in g then Known(g, Sorted(g[symbol].outgoing)) else []
  }

  lemma VisitFirst(g: Graph, roots: seq<string>, reachable: set<string>, queue: seq<string>)
    requires queue != [] && Forced(g, roots, reachable, queue) && Pending(g, roots, reachable, queue)
    ensures Forced(g, roots, reachable + {queue[0]}, queue[1..] + Calls(g, queue[0]))
    ensures Pending(g, roots, reachable + {queue[0]}, queue[1..] + Calls(g, queue[0]))
  {
    hide Calls;
    var symbol := queue[0];
    assert symbol in queue && queue == [symbol] + queue[1..];
    forall s: set<string> | (forall r <- roots :: r in s) && Closed(g, s)
      ensures reachable + {symbol} <= s && forall q <- queue[1..] + Calls(g, symbol) :: q in s
    {
      assert forall q <- queue :: q in s;
      assert forall q <- queue[1..] :: q in queue;
    }
  }

  lemma SkipFirst(g: Graph, roots: seq<string>, reachable: set<string>, queue: seq<string>)
    requires queue != [] && queue[0] in reachable
    requires Forced(g, roots, reachable, queue) && Pending(g, roots, reachable, queue)
    ensures Forced(g, roots, reachable, queue[1..]) && Pending(g, roots, reachable, queue[1..])
  {
    hide Closed;
    assert queue == [queue[0]] + queue[1..];
    assert forall q <- queue[1..] :: q in queue;
  }

  lemma StartsPending(g: Graph, roots: seq<string>)
    ensures Forced(g, roots, {}, roots) && Pending(g, roots, {}, roots)
  {
    hide Closed;
  }

  /** An empty queue leaves the least closed set. */
  lemma NothingPending(g: Graph, roots: seq<string>, reachable: set<string>)
    requires Forced(g, roots, reachable, []) && Pending(g, roots, reachable, [])
    ensures (forall r <- roots :: r in reachable) && Closed(g, reachable)
    ensures forall s: set<string> :: (forall r <- roots :: r in s) && Closed(g, s) ==> reachable <= s
  {
  }

  /** The work-list of `reachable_from_roots`; its answer is the least closed set holding the roots. */
  method ReachableFromRoots(g: Graph, roots: seq<string>) returns (reachable: set<string>)
    ensures forall r <- roots :: r in reachable
    ensures Closed(g, reachable)
    ensures forall s: set<string> :: (forall r <- roots :: r in s) && Closed(g, s) ==> reachable <= s
  {
    hide Forced, Pending, Closed, Calls, Sorted;
    reachable := {};
    var queue := roots;
    ghost var all := g.Keys + set r | r in roots;
    StartsPending(g, roots);
    while queue != []
      invariant reachable <= all && forall q <- queue :: q in all
      invariant Forced(g, roots, reachable, queue) && Pending(g, roots, reachable, queue)
      decreases all - reachable, |queue|
    {
      var symbol := queue[0];
      assert symbol in queue && queue == [symbol] + queue[1..];
      if symbol in reachable {
        SkipFirst(g, roots, reachable, queue);
        queue := queue[1..];
      } else {
        VisitFirst(g, roots, reachable, queue);
        reachable := reachable + {symbol};
        queue := queue[1..] + Calls(g, symbol);
      }
    }
    NothingPending(g, roots, reachable);
  }

  // ----- pruning

  function Prune(g: Graph, keep: set<string>): Graph {
    map k | k in g && k in keep :: g[k].(outgoing := g[k].outgoing * keep, incoming := g[k].incoming * keep)
  }

  datatype BuildResult = BuildResult(nodes: Graph, roots: seq<string>, omittedUnreachable: nat)

  /** Every node of the graph can be called, directly or not, from a root. */
  ghost predicate AllReachable(g: Graph, roots: seq<string>) {
    && (forall r <- roots :: r in g)
    && forall s: set<string> :: (forall r <- roots :: r in s) && Closed(g, s) ==> g.Keys <= s
  }

  /** Pruning to a closed set drops callers only: outgoing edges of kept nodes all survive. */
  lemma PruneKeepsOutgoing(g: Graph, keep: set<string>)
    requires Consistent(g) && keep <= g.Keys && Closed(g, keep)
    ensures Consistent(Prune(g, keep)) && Prune(g, keep).Keys == keep
    ensures forall k <- keep :: Prune(g, keep)[k] == g[k].(incoming := g[k].incoming * keep)
  {
    var p := Prune(g, keep);
    forall k | k in keep ensures p[k].outgoing == g[k].outgoing {
    }
  }

  lemma ReachabilitySurvives(g: Graph, keep: set<string>, roots: seq<string>)
    requires Consistent(g) && keep <= g.Keys && Closed(g, keep) && forall r <- roots :: r in keep
    requires forall s: set<string> :: (forall r <- roots :: r in s) && Closed(g, s) ==> keep <= s
    ensures AllReachable(Prune(g, keep), roots)
  {
    var p := Prune(g, keep);
    PruneKeepsOutgoing(g, keep);
    forall s: set<string> | (forall r <- roots :: r in s) && Closed(p, s) ensures p.Keys <= s {
      var inside := s * keep;
      forall a, b | a in inside && a in g && b in g[a].outgoing && b in g ensures b in inside {
        assert a in p && b in p[a].outgoing && b in p;
      }
      assert Closed(g, inside);
      assert forall r <- roots :: r in inside;
    }
  }

  /** The graph part of `build_graph`: link, choose roots, walk, prune both edge sets. */
  method BuildGraph(g: Graph, spans: Spans, os: seq<Occurrence>, entries: set<string>)
    returns (result: BuildResult, ghost linked: Graph)
    requires Fresh(g) && SpansOfNodes(g, spans)
    ensures LinkedWith(g, CallsOf(g, spans, os), linked)
    ensures Consistent(result.nodes) && AllReachable(result.nodes, result.roots)
    ensures result.nodes.Keys <= g.Keys && (g.Keys != {} ==> result.nodes.Keys != {} && result.roots != [])
    ensures result.roots == SelectRoots(linked, entries)
    ensures forall k <- result.nodes ::
      result.nodes[k] == linked[k].(incoming := linked[k].incoming * result.nodes.Keys)
    ensures result.omittedUnreachable == |g.Keys - result.nodes.Keys|
  {
    hide LinkedWith, CallsOf, SpansOfNodes, Consistent, AllReachable, Closed, RootSet, SelectRoots, Sorted, Prune;
    var nodes := LinkCalls(g, spans, os);
    linked := nodes;
    LinkedKeys(g, CallsOf(g, spans, os), nodes);
    AllIsClosed(nodes);
    LinkedIsConsistent(g, spans, os, nodes);
    var roots := SelectRoots(nodes, entries);
    var reachable := ReachableFromRoots(nodes, roots);
    RootsAreNodes(nodes, entries);
    assert forall r <- roots :: r in nodes.Keys;
    assert reachable <= nodes.Keys;
    PruneKeepsOutgoing(nodes, reachable);
    ReachabilitySurvives(nodes, reachable, roots);
    SubsetSize(reachable, g.Keys);
    var omitted := if |nodes| >= |reachable| then |nodes| - |reachable| else 0;
    assert |nodes| == |nodes.Keys|;
    result := BuildResult(Prune(nodes, reachable), roots, omitted);
    assert g.Keys != {} ==> roots != [] && roots[0] in roots;
  }

  lemma RootsAreNodes(g: Graph, entries: set<string>)
    ensures forall r <- SelectRoots(g, entries) :: r in g.Keys
    ensures g.Keys != {} ==> SelectRoots(g, entries) != []
  {
  }

  lemma LinkedKeys(before: Graph, calls: set<Call>, after: Graph)
    requires LinkedWith(before, calls, after)
    ensures after.Keys == before.Keys
  {
  }

  lemma AllIsClosed(g: Graph)
    ensures Closed(g, g.Keys)
  {
  }

  lemma SubsetSize(a: set<string>, b: set<string>)
    requires a <= b
    ensures |b - a| == |b| - |a|
  {
    assert b == a + (b - a);
  }
}
