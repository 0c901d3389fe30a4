/** The probe's match planner: every authored skill tree gets a player slot, in preference order. */
module MatchPlanner {
  import opened Prelude
  import opened Ordering
  import opened Arith

  const USIZE_MAX: nat := 0xFFFF_FFFF_FFFF_FFFF

  /** A tree is known by its name. */
  datatype SkillCatalogEntry = SkillCatalogEntry(tree: string, tier: u8)

  datatype TreePlan = TreePlan(tree: string, tiers: seq<u8>)

  datatype MatchPlan = MatchPlan(matchIndex: nat, players: seq<TreePlan>)

  datatype PlanError = NoPlayers | EmptyCatalog | NonSequentialTiers

  // ----- what a catalog promises

  function TreesOf(catalog: seq<SkillCatalogEntry>): set<string> { set e | e in catalog :: e.tree }

  function TiersOf(catalog: seq<SkillCatalogEntry>, tree: string): set<u8> {
    set e | e in catalog && e.tree == tree :: e.tier
  }

  /** The tiers start at one and skip none. */
  predicate NoGap(tiers: set<u8>) { 0 !in tiers && forall t <- tiers :: t > 1 ==> t - 1 in tiers }

  predicate Authored(catalog: seq<SkillCatalogEntry>) {
    forall tree <- TreesOf(catalog) :: NoGap(TiersOf(catalog, tree))
  }

  // ----- tiers

  function SetOf(tiers: seq<u8>): set<u8> { set t | t in tiers }

  /** `1..=max`. */
  function UpTo(max: nat): (r: seq<u8>)
    requires max <= 255
    ensures |r| == max && forall i :: 0 <= i < max ==> r[i] == i + 1
  {
    if max == 0 then [] else UpTo(max - 1) + [max]
  }

  predicate Rising(tiers: seq<u8>) { forall i, j :: 0 <= i < j < |tiers| ==> tiers[i] <= tiers[j] }

  predicate StrictlyRising(tiers: seq<u8>) { forall i, j :: 0 <= i < j < |tiers| ==> tiers[i] < tiers[j] }

  lemma InsertTier(tiers: seq<u8>, k: nat, x: u8)
    requires Rising(tiers) && k <= |tiers|
    requires (k > 0 ==> tiers[k - 1] <= x) && forall j :: k <= j < |tiers| ==> x < tiers[j]
    ensures Rising(tiers[..k] + [x] + tiers[k..])
  {
    var r := tiers[..k] + [x] + tiers[k..];
    assert forall i :: 0 <= i < k ==> r[i] == tiers[i] && tiers[i] <= tiers[k - 1];
    assert forall i :: k < i < |r| ==> r[i] == tiers[i - 1] && x < r[i];
    forall i, j | 0 <= i < j < |r| ensures r[i] <= r[j] {
      assert k < i ==> tiers[i - 1] <= tiers[j - 1];
      assert i < k < j ==> tiers[i] <= tiers[j - 1];
    }
  }

  lemma InsertSetOf(tiers: seq<u8>, k: nat, x: u8)
    requires k <= |tiers|
    ensures SetOf(tiers[..k] + [x] + tiers[k..]) == SetOf(tiers) + {x}
  {
    assert tiers == tiers[..k] + tiers[k..];
    assert forall y :: y in tiers[..k] + [x] + tiers[k..] <==> y in tiers[..k] || y == x || y in tiers[k..];
  }

  /** `sort_unstable`. */
  method SortTiers(tiers: seq<u8>) returns (r: seq<u8>)
    ensures Rising(r) && |r| == |tiers| && SetOf(r) == SetOf(tiers)
  {
    hide Rising, SetOf;
    assert Rising([]) && SetOf([]) == {} by { EmptyRises(); }
    r := [];
    for i := 0 to |tiers|
      invariant Rising(r) && |r| == i && SetOf(r) == SetOf(tiers[..i])
    {
      var k := i;
      while k > 0 && tiers[i] < r[k - 1]
        invariant 0 <= k <= i && forall j :: k <= j < i ==> tiers[i] < r[j]
      {
        k := k - 1;
      }
      InsertTier(r, k, tiers[i]);
      InsertSetOf(r, k, tiers[i]);
      TakeOneMore(tiers, i);
      r := r[..k] + [tiers[i]] + r[k..];
    }
    assert tiers[..|tiers|] == tiers;
  }

  lemma EmptyRises()
    ensures Rising([]) && StrictlyRising([]) && SetOf([]) == {}
  {
  }

  lemma TakeOneMore(tiers: seq<u8>, i: nat)
    requires i < |tiers|
    ensures SetOf(tiers[..i + 1]) == SetOf(tiers[..i]) + {tiers[i]}
  {
    assert tiers[..i + 1] == tiers[..i] + [tiers[i]];
  }

  /** `dedup`: of equal neighbours only the first stays. */
  method Dedup(tiers: seq<u8>) returns (r: seq<u8>)
    requires Rising(tiers)
    ensures StrictlyRising(r) && SetOf(r) == SetOf(tiers)
  {
    r := [];
    for i := 0 to |tiers|
      invariant StrictlyRising(r) && (r != [] ==> i > 0 && r[|r| - 1] == tiers[i - 1])
      invariant i > 0 ==> r != []
      invariant SetOf(r) == SetOf(tiers[..i])
    {
      TakeOneMore(tiers, i);
      assert SetOf(r + [tiers[i]]) == SetOf(r) + {tiers[i]};
      if r == [] || r[|r| - 1] != tiers[i] {
        r := r + [tiers[i]];
      }
    }
    assert tiers[..|tiers|] == tiers;
  }

  /** A strictly rising tier list is `1..=max` exactly when the tiers have no gap. */
  lemma SequentialIffNoGap(tiers: seq<u8>)
    requires tiers != [] && StrictlyRising(tiers)
    ensures tiers == UpTo(tiers[|tiers| - 1]) <==> NoGap(SetOf(tiers))
  {
    var max := tiers[|tiers| - 1];
    if tiers == UpTo(max) {
      forall t | t in SetOf(tiers) && t > 1 ensures t - 1 in SetOf(tiers) {
        assert tiers[t - 2] == t - 1;
      }
    }
    if NoGap(SetOf(tiers)) {
      NoGapCounts(tiers, |tiers| - 1);
      forall i | 0 <= i < |tiers| ensures tiers[i] == i + 1 {
        NoGapCounts(tiers, i);
      }
      assert tiers == UpTo(max);
    }
  }

  lemma {:induction false} NoGapCounts(tiers: seq<u8>, i: nat)
    requires StrictlyRising(tiers) && NoGap(SetOf(tiers)) && i < |tiers|
    ensures tiers[i] == i + 1
    decreases i
  {
    var t := tiers[i];
    assert t in tiers;
    if t > 1 {
      assert t in SetOf(tiers) && t - 1 in SetOf(tiers);
      var j :| 0 <= j < |tiers| && tiers[j] == t - 1;
      assert j < i;
      NoGapCounts(tiers, j);
      var k := Min(j + 1, i);
      assert tiers[j] < tiers[k] <= tiers[i];
    } else {
      assert tiers[0] in SetOf(tiers) && tiers[0] <= tiers[i];
    }
  }

  // ----- preference

  function Lower(c: char): char { if 'A' <= c <= 'Z' then c + 32 as char else c }

  predicate EqIgnoreAsciiCase(a: string, b: string) {
    |a| == |b| && forall i :: 0 <= i < |a| ==> Lower(a[i]) == Lower(b[i])
  }

  /** Where the first equal name stands, if any does. */
  function Position(order: seq<string>, name: string): (r: Option<nat>)
    ensures r.Some? ==> r.value < |order| && EqIgnoreAsciiCase(order[r.value], name)
    ensures r.None? ==> forall preferred <- order :: !EqIgnoreAsciiCase(preferred, name)
  {
    if order == [] then None
    else if EqIgnoreAsciiCase(order[0], name) then Some(0)
    else match Position(order[1..], name) case None => None case Some(n) => Some(n + 1)
  }

  function PreferredRank(order: Option<seq<string>>, name: string): nat {
    if order.None? then USIZE_MAX
    else match Position(order.value, name) case None => USIZE_MAX case Some(n) => n
  }

  predicate Precedes(order: Option<seq<string>>, a: string, b: string) {
    var (left, right) := (PreferredRank(order, a), PreferredRank(order, b));
    left < right || (left == right && Before(a, b))
  }

  lemma PrecedesIsOrder(order: Option<seq<string>>, a: string, b: string, c: string)
    ensures a == b || Precedes(order, a, b) || Precedes(order, b, a)
    ensures !(Precedes(order, a, b) && Precedes(order, b, a))
    ensures Precedes(order, a, b) && Precedes(order, b, c) ==> Precedes(order, a, c)
  {
    hide PreferredRank;
    BeforeIsTotal(a, b);
    BeforeIsAsymmetric(a, b);
    if Before(a, b) && Before(b, c) {
      BeforeIsTransitive(a, b, c);
    }
  }

  /** Trees named in the preference list come before all others. */
  lemma ListedComeFirst(order: seq<string>, listed: string, other: string)
    requires |order| <= USIZE_MAX
    requires Position(order, listed).Some? && Position(order, other).None?
    ensures Precedes(Some(order), listed, other)
  {
  }

  /** Upper and lower case of the same ASCII letter. */
  predicate CasePair(c: char, d: char) { 'A' <= c <= 'Z' && d as int == c as int + 32 }

  /** Ignoring case merges the two cases of a letter and nothing else. */
  lemma LowerMergesCases(c: char, d: char)
    ensures Lower(c) == Lower(d) <==> c == d || CasePair(c, d) || CasePair(d, c)
  {
  }

  /** Two names are equal up to letter case when they are so letter by letter, from the first to the last. */
  lemma EqualLetterByLetter(a: string, b: string)
    ensures EqIgnoreAsciiCase(a, b)
       <==> if a == "" || b == "" then a == b
            else (a[0] == b[0] || CasePair(a[0], b[0]) || CasePair(b[0], a[0])) && EqIgnoreAsciiCase(a[1..], b[1..])
  {
    hide Lower, CasePair;
    if a != "" && b != "" {
      LowerMergesCases(a[0], b[0]);
      if EqIgnoreAsciiCase(a[1..], b[1..]) && Lower(a[0]) == Lower(b[0]) {
        forall i | 0 <= i < |a| ensures Lower(a[i]) == Lower(b[i]) {
          assert i > 0 ==> a[i] == a[1..][i - 1] && b[i] == b[1..][i - 1];
        }
      }
    }
  }

  /** The `i`-th preference is the first that equals the name up to letter case. */
  ghost predicate FirstEqual(order: seq<string>, i: int, name: string) {
    && 0 <= i < |order| && EqIgnoreAsciiCase(order[i], name)
    && forall j :: 0 <= j < i ==> !EqIgnoreAsciiCase(order[j], name)
  }

  lemma {:induction false} PositionIsFirst(order: seq<string>, name: string)
    ensures var r := Position(order, name);
            if r.None? then forall i :: 0 <= i < |order| ==> !EqIgnoreAsciiCase(order[i], name)
            else FirstEqual(order, r.value, name)
  {
    hide EqIgnoreAsciiCase;
    if order != [] {
      PositionIsFirst(order[1..], name);
      assert forall i :: 0 < i < |order| ==> order[i] == order[1..][i - 1];
    }
  }

  lemma FirstEqualIsPosition(order: seq<string>, i: int, name: string)
    requires FirstEqual(order, i, name)
    ensures Position(order, name) == Some(i)
  {
    hide EqIgnoreAsciiCase;
    PositionIsFirst(order, name);
  }

  /** Listed trees go in the order of the list; the name decides only between trees the same entry lists. */
  lemma ListOrderDecides(order: seq<string>, i: int, j: int, a: string, b: string)
    requires FirstEqual(order, i, a) && FirstEqual(order, j, b)
    ensures Precedes(Some(order), a, b) <==> i < j || (i == j && Before(a, b))
  {
    hide FirstEqual;
    FirstEqualIsPosition(order, i, a);
    FirstEqualIsPosition(order, j, b);
  }

  /** Without a list, or when no entry equals either of them, two trees go by name. */
  lemma OthersGoByName(order: seq<string>, a: string, b: string)
    ensures Precedes(None, a, b) <==> Before(a, b)
    ensures (forall preferred <- order :: !EqIgnoreAsciiCase(preferred, a) && !EqIgnoreAsciiCase(preferred, b)) ==>
              (Precedes(Some(order), a, b) <==> Before(a, b))
  {
    hide EqIgnoreAsciiCase;
    PositionIsFirst(order, a);
    PositionIsFirst(order, b);
  }

  ghost predicate InOrder(order: Option<seq<string>>, trees: seq<TreePlan>) {
    forall i, j :: 0 <= i < j < |trees| ==> Precedes(order, trees[i].tree, trees[j].tree)
  }

  /** Placing one tree between those that precede it and those it precedes keeps the order. */
  lemma InsertKeepsOrder(order: Option<seq<string>>, trees: seq<TreePlan>, k: nat, x: TreePlan)
    requires InOrder(order, trees) && k <= |trees|
    requires k > 0 ==> Precedes(order, trees[k - 1].tree, x.tree)
    requires forall j :: k <= j < |trees| ==> Precedes(order, x.tree, trees[j].tree)
    ensures InOrder(order, trees[..k] + [x] + trees[k..])
  {
    hide Precedes;
    forall j | 0 <= j < k ensures Precedes(order, trees[j].tree, x.tree) {
      PrecedesIsOrder(order, trees[j].tree, trees[k - 1].tree, x.tree);
    }
  }

  ghost predicate DistinctNames(trees: seq<TreePlan>) {
    forall i, j :: 0 <= i < j < |trees| ==> trees[i].tree != trees[j].tree
  }

  /** `sort_by` on preference, then name. */
  method SortByPreference(order: Option<seq<string>>, trees: seq<TreePlan>) returns (r: seq<TreePlan>)
    requires DistinctNames(trees)
    ensures InOrder(order, r) && |r| == |trees| && forall x :: x in r <==> x in trees
  {
    hide Precedes, InOrder;
    r := [];
    EmptyInOrder(order);
    for i := 0 to |trees|
      invariant InOrder(order, r) && |r| == i && forall x :: x in r <==> x in trees[..i]
    {
      var k := i;
      while k > 0 && Precedes(order, trees[i].tree, r[k - 1].tree)
        invariant 0 <= k <= i && forall j :: k <= j < i ==> Precedes(order, trees[i].tree, r[j].tree)
      {
        k := k - 1;
      }
      if k > 0 {
        assert r[k - 1] in r;
        PrecedesIsOrder(order, trees[i].tree, r[k - 1].tree, trees[i].tree);
      }
      InsertKeepsOrder(order, r, k, trees[i]);
      assert r == r[..k] + r[k..] && trees[..i + 1] == trees[..i] + [trees[i]];
      r := r[..k] + [trees[i]] + r[k..];
    }
    assert trees[..|trees|] == trees;
  }

  lemma EmptyInOrder(order: Option<seq<string>>)
    ensures InOrder(order, [])
  {
  }

  // ----- the sorted trees

  function NamesOf(trees: seq<TreePlan>): set<string> { set x | x in trees :: x.tree }

  /** Each authored tree once, with all its tiers from one up, in preference order. */
  ghost predicate AreTreePlans(catalog: seq<SkillCatalogEntry>, order: Option<seq<string>>, trees: seq<TreePlan>) {
    && InOrder(order, trees)
    && NamesOf(trees) == TreesOf(catalog)
    && (forall x <- trees :: IsTreePlan(catalog, x))
  }

  ghost predicate IsTreePlan(catalog: seq<SkillCatalogEntry>, x: TreePlan) {
    && |x.tiers| <= 255 && x.tiers == UpTo(|x.tiers|)
    && SetOf(x.tiers) == TiersOf(catalog, x.tree)
  }

  lemma TreePlanIsDetermined(catalog: seq<SkillCatalogEntry>, x: TreePlan, y: TreePlan)
    requires IsTreePlan(catalog, x) && IsTreePlan(catalog, y) && x.tree == y.tree
    ensures x == y
  {
    UpToIsDetermined(|x.tiers|, |y.tiers|);
    UpToIsDetermined(|y.tiers|, |x.tiers|);
  }

  lemma UpToIsDetermined(a: nat, b: nat)
    requires a <= 255 && b <= 255 && SetOf(UpTo(a)) == SetOf(UpTo(b))
    ensures a <= b
  {
    if a > 0 {
      assert UpTo(a)[a - 1] in SetOf(UpTo(b));
    }
  }

  /** Two strictly ordered lists of the same trees are the same list. */
  lemma {:induction false} OrderedListsAgree(order: Option<seq<string>>, a: seq<TreePlan>, b: seq<TreePlan>)
    requires InOrder(order, a) && InOrder(order, b) && forall x :: x in a <==> x in b
    ensures a == b
    decreases |a|
  {
    hide Precedes;
    if a == [] {
      assert forall i :: 0 <= i < |b| ==> b[i] in b;
    } else {
      assert a[0] in b && b[0] in a;
      var j :| 0 <= j < |b| && b[j] == a[0];
      var i :| 0 <= i < |a| && a[i] == b[0];
      PrecedesIsOrder(order, a[0].tree, b[0].tree, a[0].tree);
      assert a[0] == b[0];
      HeadNotRepeated(order, a);
      HeadNotRepeated(order, b);
      assert forall x :: x in a <==> x == a[0] || x in a[1..];
      assert forall x :: x in b <==> x == b[0] || x in b[1..];
      OrderedListsAgree(order, a[1..], b[1..]);
      assert a == [a[0]] + a[1..] && b == [b[0]] + b[1..];
    }
  }

  /** In a sorted list of trees the one listed earlier in the preferences stands earlier. */
  lemma PreferredStandEarlier(order: seq<string>, trees: seq<TreePlan>, m: nat, n: nat, i: int, j: int)
    requires InOrder(Some(order), trees) && m < |trees| && n < |trees|
    requires FirstEqual(order, i, trees[m].tree) && FirstEqual(order, j, trees[n].tree) && i < j
    ensures m < n
  {
    hide Precedes, FirstEqual;
    ListOrderDecides(order, i, j, trees[m].tree, trees[n].tree);
    PrecedesIsOrder(Some(order), trees[m].tree, trees[n].tree, trees[m].tree);
  }

  lemma HeadNotRepeated(order: Option<seq<string>>, a: seq<TreePlan>)
    requires InOrder(order, a) && a != []
    ensures a[0] !in a[1..]
  {
    hide Precedes;
    PrecedesIsOrder(order, a[0].tree, a[0].tree, a[0].tree);
  }

  /** The catalog and the preference list determine the trees: the order of the catalog does not matter. */
  lemma TreePlansAreDetermined(catalog: seq<SkillCatalogEntry>, other: seq<SkillCatalogEntry>,
                               order: Option<seq<string>>, a: seq<TreePlan>, b: seq<TreePlan>)
    requires AreTreePlans(catalog, order, a) && AreTreePlans(other, order, b)
    requires forall e :: e in catalog <==> e in other
    ensures a == b
  {
    hide Precedes, InOrder, IsTreePlan;
    assert TreesOf(catalog) == TreesOf(other);
    forall x ensures x in a <==> x in b {
      if x in a {
        SharedTree(catalog, other, order, a, b, x);
      }
      if x in b {
        SharedTree(other, catalog, order, b, a, x);
      }
    }
    OrderedListsAgree(order, a, b);
  }

  lemma SharedTree(catalog: seq<SkillCatalogEntry>, other: seq<SkillCatalogEntry>, order: Option<seq<string>>,
                   a: seq<TreePlan>, b: seq<TreePlan>, x: TreePlan)
    requires AreTreePlans(catalog, order, a) && AreTreePlans(other, order, b) && x in a
    requires forall e :: e in catalog <==> e in other
    ensures x in b
  {
    hide Precedes, InOrder;
    assert x.tree in TreesOf(catalog) && x.tree in TreesOf(other);
    var y :| y in b && y.tree == x.tree;
    assert TiersOf(catalog, x.tree) == TiersOf(other, x.tree);
    TreePlanIsDetermined(catalog, x, y);
  }

  // ----- the plans

  /** One match: the next trees, then fillers from the front of the list, round and round. */
  function PlayersFrom(trees: seq<TreePlan>, start: nat, playersPerMatch: nat): (players: seq<TreePlan>)
    requires start < |trees|
    ensures |players| == playersPerMatch
  {
    seq(playersPerMatch, (j: nat) =>
      if start + j < |trees| then trees[start + j] else trees[(start + j - |trees|) % |trees|])
  }

  function PlansFrom(trees: seq<TreePlan>, start: nat, playersPerMatch: nat, index: nat): seq<MatchPlan>
    requires playersPerMatch > 0
    decreases |trees| - start
  {
    if start >= |trees| then [] else
      [MatchPlan(index, PlayersFrom(trees, start, playersPerMatch))]
      + PlansFrom(trees, start + playersPerMatch, playersPerMatch, index + 1)
  }

  /** All player slots of the plans, one after another. */
  function Slots(plans: seq<MatchPlan>): seq<TreePlan> {
    if plans == [] then [] else plans[0].players + Slots(plans[1..])
  }

  /**
   Read one after another, the slots are the trees and then less than one match of fillers, which repeat the
   trees from the first: every tree is played exactly once outside the fillers, in order.
   */
  lemma {:induction false} SlotsCover(trees: seq<TreePlan>, start: nat, playersPerMatch: nat, index: nat)
    requires playersPerMatch > 0 && start < |trees|
    ensures var slots := Slots(PlansFrom(trees, start, playersPerMatch, index));
            && |trees| - start <= |slots| < |trees| - start + playersPerMatch
            && slots[..|trees| - start] == trees[start..]
            && forall j :: |trees| - start <= j < |slots| ==> slots[j] == trees[(start + j - |trees|) % |trees|]
    decreases |trees| - start
  {
    var plans := PlansFrom(trees, start, playersPerMatch, index);
    var players := PlayersFrom(trees, start, playersPerMatch);
    var later := PlansFrom(trees, start + playersPerMatch, playersPerMatch, index + 1);
    assert plans[0].players == players && plans[1..] == later;
    assert Slots(plans) == players + Slots(later);
    if start + playersPerMatch < |trees| {
      SlotsCover(trees, start + playersPerMatch, playersPerMatch, index + 1);
      assert players == trees[start..start + playersPerMatch];
      assert trees[start..] == trees[start..start + playersPerMatch] + trees[start + playersPerMatch..];
    } else {
      assert Slots(later) == [] && Slots(plans) == players;
    }
  }

  /** Every match is full, the indices count up from `index`, and there are just enough matches. */
  lemma {:induction false} PlansAreNumbered(trees: seq<TreePlan>, start: nat, playersPerMatch: nat, index: nat)
    requires playersPerMatch > 0 && start <= |trees|
    ensures var plans := PlansFrom(trees, start, playersPerMatch, index);
            && (forall i :: 0 <= i < |plans| ==>
              plans[i].matchIndex == index + i && |plans[i].players| == playersPerMatch)
            && |plans| == CeilDiv(|trees| - start, playersPerMatch)
    decreases |trees| - start
  {
    if start < |trees| {
      if start + playersPerMatch <= |trees| {
        PlansAreNumbered(trees, start + playersPerMatch, playersPerMatch, index + 1);
        CeilDivStep(|trees| - start, playersPerMatch);
      } else {
        CeilDivLast(|trees| - start, playersPerMatch);
      }
    } else {
      CeilDivLast(0, playersPerMatch);
    }
  }

  /** `n / d` rounded up. */
  function CeilDiv(n: nat, d: nat): nat
    requires d > 0
  {
    (n + d - 1) / d
  }

  lemma CeilDivStep(n: nat, d: nat)
    requires d > 0 && n >= d
    ensures CeilDiv(n, d) == 1 + CeilDiv(n - d, d)
  {
    var x := n - 1;
    DivModUnique(x + d, d, x / d + 1, x % d);
  }

  lemma CeilDivLast(n: nat, d: nat)
    requires d > 0 && n < d
    ensures CeilDiv(n, d) == if n == 0 then 0 else 1
  {
    DivModUnique(n + d - 1, d, if n == 0 then 0 else 1, if n == 0 then d - 1 else n - 1);
  }

  /** The plans of a catalog, read slot by slot, hold every authored tree exactly once before the fillers begin. */
  lemma EachTreePlayedOnce(catalog: seq<SkillCatalogEntry>, order: Option<seq<string>>, trees: seq<TreePlan>,
                           playersPerMatch: nat, name: string)
    requires AreTreePlans(catalog, order, trees) && playersPerMatch > 0 && name in TreesOf(catalog)
    ensures var slots := Slots(PlansFrom(trees, 0, playersPerMatch, 1));
            && |trees| <= |slots|
            && exists i :: 0 <= i < |trees| && slots[i].tree == name
                        && forall j :: 0 <= j < |trees| && slots[j].tree == name ==> j == i
  {
    hide IsTreePlan, Precedes;
    assert name in NamesOf(trees);
    SlotsCover(trees, 0, playersPerMatch, 1);
    var slots := Slots(PlansFrom(trees, 0, playersPerMatch, 1));
    assert trees[0..] == trees == slots[..|trees|];
    var i :| 0 <= i < |trees| && trees[i].tree == name;
    assert slots[i] == slots[..|trees|][i];
    PrecedesIsOrder(order, name, name, name);
    forall j | 0 <= j < |trees| && slots[j].tree == name ensures j == i {
      assert slots[j] == slots[..|trees|][j];
    }
  }

  // ----- the planner

  /** What grouping leaves: every authored tree with its tiers, in catalog order and with repeats. */
  ghost predicate Groups(catalog: seq<SkillCatalogEntry>, grouped: map<string, seq<u8>>) {
    && grouped.Keys == TreesOf(catalog)
    && forall tree <- grouped :: grouped[tree] != [] && SetOf(grouped[tree]) == TiersOf(catalog, tree)
  }

  lemma GroupOneMore(catalog: seq<SkillCatalogEntry>, grouped: map<string, seq<u8>>, e: SkillCatalogEntry)
    requires Groups(catalog, grouped)
    ensures Groups(catalog + [e], grouped[e.tree := (if e.tree in grouped then grouped[e.tree] else []) + [e.tier]])
  {
    var before := if e.tree in grouped then grouped[e.tree] else [];
    assert TreesOf(catalog + [e]) == TreesOf(catalog) + {e.tree};
    forall tree
      ensures TiersOf(catalog + [e], tree) == TiersOf(catalog, tree) + if tree == e.tree then {e.tier} else {}
    {
      TiersOfOneMore(catalog, e, tree);
    }
    assert SetOf(before + [e.tier]) == SetOf(before) + {e.tier};
    if e.tree !in grouped {
      assert TiersOf(catalog, e.tree) == {};
    }
  }

  lemma TiersOfOneMore(catalog: seq<SkillCatalogEntry>, e: SkillCatalogEntry, tree: string)
    ensures TiersOf(catalog + [e], tree) == TiersOf(catalog, tree) + if tree == e.tree then {e.tier} else {}
  {
    assert forall x :: x in catalog + [e] <==> x in catalog || x == e;
  }

  method GroupTiers(catalog: seq<SkillCatalogEntry>) returns (grouped: map<string, seq<u8>>)
    ensures Groups(catalog, grouped)
  {
    hide Groups;
    grouped := map[];
    NoGroups();
    for i := 0 to |catalog|
      invariant Groups(catalog[..i], grouped)
    {
      var entry := catalog[i];
      GroupOneMore(catalog[..i], grouped, entry);
      assert catalog[..i] + [entry] == catalog[..i + 1];
      grouped := grouped[entry.tree := (if entry.tree in grouped then grouped[entry.tree] else []) + [entry.tier]];
    }
    assert catalog[..|catalog|] == catalog;
  }

  lemma NoGroups()
    ensures Groups([], map[])
  {
  }

  /** Every group becomes a tree plan, in whatever order the groups come, unless one has a gap. */
  method PlanTrees(catalog: seq<SkillCatalogEntry>, grouped: map<string, seq<u8>>)
    returns (r: Result<seq<TreePlan>, PlanError>)
    requires Groups(catalog, grouped)
    ensures r.Ok? <==> Authored(catalog)
    ensures r.Err? ==> r.error == NonSequentialTiers
    ensures r.Ok? ==> DistinctNames(r.value) && (forall x <- r.value :: IsTreePlan(catalog, x))
    ensures r.Ok? ==> NamesOf(r.value) == TreesOf(catalog)
  {
    hide NoGap, TreesOf, TiersOf, IsTreePlan, NamesOf, DistinctNames, SetOf;
    assert DistinctNames([]) && NamesOf([]) == {} by { NoTrees(); }
    var trees: seq<TreePlan> := [];
    var rest := grouped.Keys;
    while rest != {}
      invariant rest <= grouped.Keys
      invariant DistinctNames(trees) && NamesOf(trees) == grouped.Keys - rest
        && forall x <- trees :: IsTreePlan(catalog, x)
      invariant forall name :: name in grouped.Keys - rest ==> NoGap(TiersOf(catalog, name))
      decreases |rest|
    {
      var tree :| tree in rest;
      var sorted := SortTiers(grouped[tree]);
      var tiers := Dedup(sorted);
      var maxTier: u8 := if tiers == [] then 0 else tiers[|tiers| - 1];
      PlanOfGroup(catalog, grouped, tree, tiers);
      if tiers != UpTo(maxTier) {
        return Err(NonSequentialTiers);
      }
      AddTree(trees, TreePlan(tree, tiers));
      trees := trees + [TreePlan(tree, tiers)];
      rest := rest - {tree};
    }
    r := Ok(trees);
  }

  lemma NoTrees()
    ensures DistinctNames([]) && NamesOf([]) == {}
  {
  }

  lemma AddTree(trees: seq<TreePlan>, plan: TreePlan)
    requires DistinctNames(trees) && plan.tree !in NamesOf(trees)
    ensures DistinctNames(trees + [plan]) && NamesOf(trees + [plan]) == NamesOf(trees) + {plan.tree}
  {
    assert forall i :: 0 <= i < |trees| ==> trees[i] in trees && trees[i].tree in NamesOf(trees);
    assert forall x :: x in trees + [plan] <==> x in trees || x == plan;
  }

  lemma PlanOfGroup(catalog: seq<SkillCatalogEntry>, grouped: map<string, seq<u8>>, tree: string, tiers: seq<u8>)
    requires Groups(catalog, grouped) && tree in grouped
    requires StrictlyRising(tiers) && SetOf(tiers) == SetOf(grouped[tree])
    ensures tiers != []
    ensures tiers == UpTo(tiers[|tiers| - 1]) <==> NoGap(TiersOf(catalog, tree))
    ensures tiers == UpTo(tiers[|tiers| - 1]) ==> IsTreePlan(catalog, TreePlan(tree, tiers))
  {
    hide NoGap, TreesOf, TiersOf;
    assert grouped[tree][0] in SetOf(grouped[tree]);
    SequentialIffNoGap(tiers);
  }

  /** The players of one match: a slice of the trees, padded in a loop. */
  method FillMatch(trees: seq<TreePlan>, start: nat, playersPerMatch: nat) returns (players: seq<TreePlan>)
    requires start < |trees|
    ensures players == PlayersFrom(trees, start, playersPerMatch)
  {
    var end := Min(start + playersPerMatch, |trees|);
    players := trees[start..end];
    var fillerIndex := 0;
    while |players| < playersPerMatch
      invariant |players| <= playersPerMatch && |players| == end - start + fillerIndex
      invariant fillerIndex > 0 ==> end == |trees|
      invariant players == PlayersFrom(trees, start, playersPerMatch)[..|players|]
    {
      players := players + [trees[fillerIndex % |trees|]];
      fillerIndex := fillerIndex + 1;
    }
  }

  method BuildMatchPlans(catalog: seq<SkillCatalogEntry>, playersPerMatch: nat, order: Option<seq<string>>)
    returns (r: Result<(seq<TreePlan>, seq<MatchPlan>), PlanError>)
    ensures r.Ok? <==> playersPerMatch > 0 && catalog != [] && Authored(catalog)
    ensures r.Err? ==>
      r.error == if playersPerMatch == 0 then NoPlayers
                 else if catalog == [] then EmptyCatalog else NonSequentialTiers
    ensures r.Ok? ==> r.value.0 != [] && AreTreePlans(catalog, order, r.value.0)
    ensures r.Ok? ==> r.value.1 == PlansFrom(r.value.0, 0, playersPerMatch, 1)
  {
    hide Groups, Authored, InOrder, IsTreePlan, PlayersFrom, DistinctNames;
    if playersPerMatch == 0 {
      return Err(NoPlayers);
    }
    if catalog == [] {
      return Err(EmptyCatalog);
    }
    var grouped := GroupTiers(catalog);
    var planned := PlanTrees(catalog, grouped);
    if planned.Err? {
      return Err(planned.error);
    }
    assert catalog[0].tree in TreesOf(catalog);
    var trees := SortByPreference(order, planned.value);
    var plans: seq<MatchPlan> := [];
    var start := 0;
    while start < |trees|
      invariant 0 <= start <= |trees|
      invariant plans + PlansFrom(trees, start, playersPerMatch, |plans| + 1) == PlansFrom(trees, 0, playersPerMatch, 1)
    {
      var players := FillMatch(trees, start, playersPerMatch);
      plans := plans + [MatchPlan(|plans| + 1, players)];
      start := Min(start + playersPerMatch, |trees|);
    }
    r := Ok((trees, plans));
  }
}
