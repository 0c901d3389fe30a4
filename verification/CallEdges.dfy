/** Which occurrences become calls, and which functions become roots, said without the code that decides it. */
module CallEdges {
  import opened CallGraph
  import opened FileOverview
  import opened Ordering
  import opened Prelude

  // ----- whose line it is

  predicate Holds(s: Span, line: nat) { s.bodyStart <= line && line <= s.endLine }

  /** The `i`-th span holds the line, no span that does is shorter, and none before it is as short. */
  ghost predicate Owns(spans: seq<Span>, i: int, line: nat) {
    && 0 <= i < |spans| && Holds(spans[i], line)
    && (forall j :: 0 <= j < |spans| && Holds(spans[j], line) ==>
          spans[i].endLine - spans[i].bodyStart <= spans[j].endLine - spans[j].bodyStart)
    && (forall j :: 0 <= j < i && Holds(spans[j], line) ==>
          spans[i].endLine - spans[i].bodyStart < spans[j].endLine - spans[j].bodyStart)
  }

  lemma OwnerIsUnique(spans: seq<Span>, i: int, j: int, line: nat)
    requires Owns(spans, i, line) && Owns(spans, j, line)
    ensures i == j
  {
    assert Holds(spans[i], line) && Holds(spans[j], line);
  }

  lemma OwnerStays(spans: seq<Span>, s: Span, i: int, line: nat)
    requires Owns(spans, i, line) && (Holds(s, line) ==> Extent(spans[i]) <= Extent(s))
    ensures Owns(spans + [s], i, line)
  {
  }

  lemma OwnerChanges(spans: seq<Span>, s: Span, line: nat)
    requires Holds(s, line) && forall t <- spans :: Holds(t, line) ==> Extent(s) < Extent(t)
    ensures Owns(spans + [s], |spans|, line)
  {
    assert forall j :: 0 <= j < |spans| ==> (spans + [s])[j] == spans[j] && spans[j] in spans;
  }

  /** The enclosing function is that of the first of the shortest spans around the line. */
  lemma {:induction false} EnclosingOwns(spans: seq<Span>, line: nat) returns (i: int)
    ensures var r := FindEnclosing(spans, line);
            if r.None? then forall s <- spans :: !Holds(s, line)
            else Owns(spans, i, line) && r == Some(spans[i])
    decreases |spans|
  {
    hide Owns;
    i := 0;
    if spans != [] {
      var before, s := spans[..|spans| - 1], spans[|spans| - 1];
      assert spans == before + [s];
      i := EnclosingOwns(before, line);
      var r := FindEnclosing(before, line);
      if Holds(s, line) && (r.None? || Extent(s) < Extent(r.value)) {
        OwnerChanges(before, s, line);
        i := |before|;
      } else if r.Some? {
        OwnerHolds(before, i, line);
        OwnerStays(before, s, i, line);
      }
    }
  }

  lemma OwnerHolds(spans: seq<Span>, i: int, line: nat)
    requires Owns(spans, i, line)
    ensures 0 <= i < |spans| && spans[i] in spans && Holds(spans[i], line)
  {
  }

  ghost predicate OwnedBy(spans: seq<Span>, line: nat, symbol: string) {
    exists i :: Owns(spans, i, line) && spans[i].symbol == symbol
  }

  // ----- which occurrences are calls

  /** The occurrence is a use of the node `callee` on a line of another function, `caller`. */
  ghost predicate IsUse(g: Graph, spans: Spans, o: Occurrence, caller: string, callee: string) {
    && !o.definition && o.symbol == callee && callee in g && caller != callee
    && o.file in spans && o.line.Some? && OwnedBy(spans[o.file], o.line.value, caller)
  }

  lemma CallIsUse(g: Graph, spans: Spans, o: Occurrence, caller: string, callee: string)
    ensures CallOf(g, spans, o) == Some(Call(caller, callee)) <==> IsUse(g, spans, o, caller, callee)
  {
    hide OwnedBy, FindEnclosing;
    if o.file in spans && o.line.Some? {
      EnclosingIsOwner(spans[o.file], o.line.value, caller);
    }
  }

  lemma EnclosingIsOwner(spans: seq<Span>, line: nat, symbol: string)
    ensures var r := FindEnclosing(spans, line);
            OwnedBy(spans, line, symbol) <==> r.Some? && r.value.symbol == symbol
  {
    hide FindEnclosing;
    var i := EnclosingOwns(spans, line);
    forall j | Owns(spans, j, line) ensures FindEnclosing(spans, line) == Some(spans[j]) {
      OwnerHolds(spans, j, line);
      if FindEnclosing(spans, line).Some? {
        OwnerIsUnique(spans, i, j, line);
      }
    }
  }

  /** The linked graph has an edge from one function to another exactly where the first one uses the other. */
  lemma EdgesAreUses(g: Graph, spans: Spans, os: seq<Occurrence>, nodes: Graph, a: string, b: string)
    requires Fresh(g) && LinkedWith(g, CallsOf(g, spans, os), nodes)
    ensures nodes.Keys == g.Keys
    ensures a in g ==> (b in nodes[a].outgoing <==> exists o <- os :: IsUse(g, spans, o, a, b))
    ensures b in g ==> (a in nodes[b].incoming <==> exists o <- os :: IsUse(g, spans, o, a, b))
  {
    hide CallOf, IsUse;
    assert Call(a, b) in CallsOf(g, spans, os) <==> exists o <- os :: IsUse(g, spans, o, a, b) by {
      forall o | o in os ensures CallOf(g, spans, o) == Some(Call(a, b)) <==> IsUse(g, spans, o, a, b) {
        CallIsUse(g, spans, o, a, b);
      }
    }
  }

  // ----- roots

  predicate PartAt(s: string, part: string, i: int) {
    0 <= i && i + |part| <= |s| && s[i..i + |part|] == part
  }

  lemma PartMoves(s: string, part: string, i: int)
    requires s != [] && i > 0
    ensures PartAt(s, part, i) <==> PartAt(s[1..], part, i - 1)
  {
    if i + |part| <= |s| {
      assert s[1..][i - 1..i - 1 + |part|] == s[i..i + |part|];
    }
  }

  lemma PartAtFront(s: string, part: string)
    ensures PartAt(s, part, 0) <==> part <= s
    ensures forall i :: PartAt(s, part, i) ==> 0 <= i <= |s|
  {
  }

  /** A string contains another when it has it at some position. */
  lemma {:induction false} ContainsSomewhere(s: string, part: string)
    ensures Contains(s, part) <==> exists i :: PartAt(s, part, i)
  {
    hide PartAt;
    PartAtFront(s, part);
    if s != [] {
      ContainsSomewhere(s[1..], part);
      forall i | i > 0 ensures PartAt(s, part, i) <==> PartAt(s[1..], part, i - 1) {
        PartMoves(s, part, i);
      }
      PartAtFront(s[1..], part);
      if i :| PartAt(s[1..], part, i) {
        PartMoves(s, part, i + 1);
      }
    }
  }

  /** How far down the list of criteria a node comes; only the best nodes of a graph are roots. */
  ghost function RootRank(n: Node, entries: set<string>): nat {
    var uncalled := n.incoming == {};
    if n.file in entries then
      if exists i :: PartAt(n.fullName, "::impl::", i) then 2 else if uncalled then 0 else 1
    else if uncalled then 3 else 4
  }

  lemma RankIsCriteria(n: Node, entries: set<string>)
    ensures Preferred(n, entries) && n.incoming == {} <==> RootRank(n, entries) == 0
    ensures Preferred(n, entries) <==> RootRank(n, entries) <= 1
    ensures InEntryFile(n, entries) <==> RootRank(n, entries) <= 2
    ensures !InEntryFile(n, entries) && n.incoming == {} <==> RootRank(n, entries) == 3
  {
    ContainsSomewhere(n.fullName, "::impl::");
  }

  /** The nodes whose rank is at most `n`. */
  ghost function Ranked(g: Graph, entries: set<string>, n: nat): set<string> {
    set k | k in g && RootRank(g[k], entries) <= n
  }

  /** The first of these sets that is not empty decides. */
  lemma RootSetByRank(g: Graph, entries: set<string>)
    ensures RootSet(g, entries)
         == if Ranked(g, entries, 0) != {} then Ranked(g, entries, 0)
            else if Ranked(g, entries, 1) != {} then Ranked(g, entries, 1)
            else if Ranked(g, entries, 2) != {} then Ranked(g, entries, 2)
            else if Ranked(g, entries, 3) != {} then Ranked(g, entries, 3)
            else FirstOrNone(g.Keys)
  {
    hide Preferred, InEntryFile, RootRank, FirstOrNone;
    forall j | j in g
      ensures Preferred(g[j], entries) && g[j].incoming == {} <==> RootRank(g[j], entries) <= 0
      ensures Preferred(g[j], entries) <==> RootRank(g[j], entries) <= 1
      ensures InEntryFile(g[j], entries) <==> RootRank(g[j], entries) <= 2
      ensures InEntryFile(g[j], entries) || g[j].incoming == {} <==> RootRank(g[j], entries) <= 3
    {
      RankIsCriteria(g[j], entries);
    }
    assert (set k | k in g && Preferred(g[k], entries) && g[k].incoming == {}) == Ranked(g, entries, 0);
    assert (set k | k in g && Preferred(g[k], entries)) == Ranked(g, entries, 1);
    assert (set k | k in g && InEntryFile(g[k], entries)) == Ranked(g, entries, 2);
    if Ranked(g, entries, 2) == {} {
      forall j | j in g ensures !InEntryFile(g[j], entries) {
        assert j !in Ranked(g, entries, 2);
      }
      assert (set k | k in g && g[k].incoming == {}) == Ranked(g, entries, 3);
    }
  }

  lemma BestOf(g: Graph, entries: set<string>, n: nat, k: string)
    requires Ranked(g, entries, n) != {} && (n > 0 ==> Ranked(g, entries, n - 1) == {})
    ensures k in Ranked(g, entries, n)
       <==> k in g && forall j <- g :: RootRank(g[k], entries) <= RootRank(g[j], entries)
    ensures k in Ranked(g, entries, n) ==> RootRank(g[k], entries) == n
  {
    hide RootRank;
    var best :| best in Ranked(g, entries, n);
    if n > 0 {
      forall j | j in g ensures RootRank(g[j], entries) >= n {
        assert j !in Ranked(g, entries, n - 1);
      }
    }
  }

  /**
   Roots are the nodes that no other outranks: uncalled functions of an entry file that are no impl methods, else
   called ones, else anything in an entry file, else uncalled functions of any file, else just the first symbol.
   */
  lemma RootsAreBest(g: Graph, entries: set<string>, k: string)
    ensures k in SelectRoots(g, entries)
       <==> && k in g && (forall j <- g :: RootRank(g[k], entries) <= RootRank(g[j], entries))
            && (RootRank(g[k], entries) == 4 ==> forall j <- g :: j == k || Before(k, j))
    ensures var roots := SelectRoots(g, entries);
            forall i, j :: 0 <= i < j < |roots| ==> Before(roots[i], roots[j])
  {
    hide RootSet, Before, RootRank, Ranked;
    RootSetByRank(g, entries);
    if Ranked(g, entries, 0) != {} {
      BestOf(g, entries, 0, k);
    } else if Ranked(g, entries, 1) != {} {
      BestOf(g, entries, 1, k);
    } else if Ranked(g, entries, 2) != {} {
      BestOf(g, entries, 2, k);
    } else if Ranked(g, entries, 3) != {} {
      BestOf(g, entries, 3, k);
    } else {
      NobodyRanked(g, entries);
      if k in g {
        FirstAmong(g.Keys, k);
      }
    }
  }

  lemma NobodyRanked(g: Graph, entries: set<string>)
    requires Ranked(g, entries, 3) == {}
    ensures forall j <- g :: RootRank(g[j], entries) == 4
  {
    forall j | j in g ensures RootRank(g[j], entries) == 4 {
      assert j !in Ranked(g, entries, 3);
    }
  }

  /** Being the first key is coming before all the others. */
  lemma FirstAmong(keys: set<string>, k: string)
    requires k in keys
    ensures k in FirstOrNone(keys) <==> forall j <- keys :: j == k || Before(k, j)
  {
    if forall j <- keys :: j == k || Before(k, j) {
      FirstIsUnique(First(keys), k, keys);
    }
  }

  /** Files are ranked likewise: those that hold a root, else those no other file calls, else just the first. */
  lemma FileRootsAreBest(over: Overview, f: string)
    ensures f in FileRoots(over)
       <==> && f in over
            && (over[f].isRoot
                || ((forall e <- over :: !over[e].isRoot) && over[f].incoming == map[])
                || ((forall e <- over :: !over[e].isRoot && over[e].incoming != map[])
                    && forall e <- over :: e == f || Before(f, e)))
  {
    hide Before;
    var orphans := set e | e in over && over[e].incoming == map[];
    forall e | e in over
      ensures (e in EntryFiles(over) <==> over[e].isRoot) && (e in orphans <==> over[e].incoming == map[])
    {
    }
    if f in over {
      FirstAmong(over.Keys, f);
    }
  }
}
