/** Accepted files hold saturated sums over their rows, so the order of legacy rows does not matter. */
module LegacyRows {
  import opened Prelude
  import opened RecordRoundTrip
  import opened RecordRows
  import opened Text

  datatype CounterName =
    | Wins | Losses | NoContests | RoundWins | RoundLosses | DamageDone | HealingDone | CombatMs | CcUsed | CcHits

  function CapOf(c: CounterName): nat {
    if c.DamageDone? || c.HealingDone? || c.CombatMs? then U32_MAX else U16_MAX
  }

  function CounterOf(r: PlayerRecord, c: CounterName): (n: nat)
    ensures n <= CapOf(c)
  {
    match c
    case Wins => r.wins
    case Losses => r.losses
    case NoContests => r.noContests
    case RoundWins => r.roundWins
    case RoundLosses => r.roundLosses
    case DamageDone => r.totalDamageDone
    case HealingDone => r.totalHealingDone
    case CombatMs => r.totalCombatMs
    case CcUsed => r.ccUsed
    case CcHits => r.ccHits
  }

  /** What can be added up over the lines of a file. */
  datatype Measure =
    | RowsOfName(name: string)
    | PlainRowsOfName(name: string)
    | CounterOfName(name: string, counter: CounterName)
    | RowsWithPick(name: string, skill: string)
    | PicksOfName(name: string, skill: string)
    | RowsOfId(id: u32)

  function RowIn(line: string): Option<Row> { if IsBlank(line) then None else RowOfLine(line) }

  function WeighRow(mu: Measure, row: Row): nat {
    match mu
    case RowsOfName(name) => if row.name == name then 1 else 0
    case PlainRowsOfName(name) => if row.name == name && row.id.None? then 1 else 0
    case CounterOfName(name, c) => if row.name == name then CounterOf(row.record, c) else 0
    case RowsWithPick(name, skill) => if row.name == name && skill in row.record.skillPickCounts then 1 else 0
    case PicksOfName(name, skill) => if row.name == name then PickCount(row.record.skillPickCounts, skill) else 0
    case RowsOfId(id) => if row.id == Some(id) then 1 else 0
  }

  /** What one line contributes; blank and malformed lines contribute nothing. */
  function Weigh(mu: Measure, line: string): nat {
    match RowIn(line) case None => 0 case Some(row) => WeighRow(mu, row)
  }

  function Sum(mu: Measure, lines: seq<string>): nat {
    if lines == [] then 0 else Sum(mu, lines[..|lines| - 1]) + Weigh(mu, lines[|lines| - 1])
  }

  lemma SumAppend(mu: Measure, lines: seq<string>, line: string)
    ensures Sum(mu, lines + [line]) == Sum(mu, lines) + Weigh(mu, line)
  {
    assert (lines + [line])[..|lines|] == lines;
  }

  lemma {:induction false} SumRemove(mu: Measure, lines: seq<string>, i: nat)
    requires i < |lines|
    ensures Sum(mu, lines) == Sum(mu, lines[..i] + lines[i + 1..]) + Weigh(mu, lines[i])
    decreases |lines|
  {
    hide Weigh, Sum;
    var n := |lines| - 1;
    assert lines == lines[..n] + [lines[n]];
    SumAppend(mu, lines[..n], lines[n]);
    if i == n {
      assert lines[..i] + lines[i + 1..] == lines[..n];
    } else {
      SumRemove(mu, lines[..n], i);
      var before, after := lines[..i], lines[i + 1..n];
      assert lines[..n][..i] == before && lines[..n][i + 1..] == after;
      assert lines[i + 1..] == after + [lines[n]];
      assert before + (after + [lines[n]]) == before + after + [lines[n]];
      SumAppend(mu, before + after, lines[n]);
    }
  }

  /** What is left of a permutation when one line is taken out of both. */
  lemma TakeOut(a: seq<string>, b: seq<string>) returns (i: nat)
    requires a != [] && multiset(a) == multiset(b)
    ensures i < |b| && b[i] == a[|a| - 1]
    ensures multiset(a[..|a| - 1]) == multiset(b[..i] + b[i + 1..])
  {
    var n := |a| - 1;
    assert a[n] in multiset(a);
    i :| 0 <= i < |b| && b[i] == a[n];
    WithoutOne(b, i);
    WithoutOne(a, n);
    assert a[..n] + a[n + 1..] == a[..n];
  }

  lemma WithoutOne(b: seq<string>, i: nat)
    requires i < |b|
    ensures multiset(b[..i] + b[i + 1..]) == multiset(b) - multiset{b[i]}
  {
    assert b == b[..i] + [b[i]] + b[i + 1..];
  }

  /** Sums do not depend on the order of the lines. */
  lemma {:induction false} SumPermutes(mu: Measure, a: seq<string>, b: seq<string>)
    requires multiset(a) == multiset(b)
    ensures Sum(mu, a) == Sum(mu, b)
    decreases |a|
  {
    hide Weigh;
    if a == [] {
      assert |multiset(b)| == 0;
    } else {
      var i := TakeOut(a, b);
      SumPermutes(mu, a[..|a| - 1], b[..i] + b[i + 1..]);
      SumRemove(mu, b, i);
    }
  }

  // ----- the table of an accepted file

  ghost predicate PicksRead(p: Picks, name: string, lines: seq<string>) {
    && (forall skill :: skill in p <==> Sum(RowsWithPick(name, skill), lines) > 0)
    && (forall skill :: PickCount(p, skill) == Min(U16_MAX, Sum(PicksOfName(name, skill), lines)))
  }

  /** Every counter of the record is the saturated sum of that counter over the player's rows. */
  ghost predicate RecordReads(r: PlayerRecord, name: string, lines: seq<string>) {
    && (forall c :: CounterOf(r, c) == Min(CapOf(c), Sum(CounterOfName(name, c), lines)))
    && PicksRead(r.skillPickCounts, name, lines)
  }

  ghost predicate TableReads(t: Table, lines: seq<string>) {
    && (forall name :: name in t.records <==> Sum(RowsOfName(name), lines) > 0)
    && (forall name <- t.records :: RecordReads(t.records[name], name, lines))
    && (forall id: u32 :: id in t.ids <==> Sum(RowsOfId(id), lines) > 0)
  }

  lemma MergeAdds(a: PlayerRecord, b: PlayerRecord, c: CounterName)
    ensures CounterOf(Merge(a, b), c) == Min(CapOf(c), CounterOf(a, c) + CounterOf(b, c))
  {
  }

  /** A row of another player, or no row, leaves a record's sums as they were. */
  lemma OtherLine(r: PlayerRecord, name: string, lines: seq<string>, line: string)
    requires RecordReads(r, name, lines) && (RowIn(line).Some? ==> RowIn(line).value.name != name)
    ensures RecordReads(r, name, lines + [line])
  {
    hide RowIn;
    forall c ensures Sum(CounterOfName(name, c), lines + [line]) == Sum(CounterOfName(name, c), lines) {
      SumAppend(CounterOfName(name, c), lines, line);
    }
    forall skill
      ensures Sum(RowsWithPick(name, skill), lines + [line]) == Sum(RowsWithPick(name, skill), lines)
      ensures Sum(PicksOfName(name, skill), lines + [line]) == Sum(PicksOfName(name, skill), lines)
    {
      SumAppend(RowsWithPick(name, skill), lines, line);
      SumAppend(PicksOfName(name, skill), lines, line);
    }
  }

  lemma OwnLine(r: PlayerRecord, name: string, lines: seq<string>, line: string)
    requires RecordReads(r, name, lines) && RowIn(line).Some? && RowIn(line).value.name == name
    ensures RecordReads(Merge(r, RowIn(line).value.record), name, lines + [line])
  {
    hide RowIn, CounterOf, Merge;
    var row := RowIn(line).value;
    var merged := Merge(r, row.record);
    forall c ensures CounterOf(merged, c) == Min(CapOf(c), Sum(CounterOfName(name, c), lines + [line])) {
      SumAppend(CounterOfName(name, c), lines, line);
      MergeAdds(r, row.record, c);
    }
    MergePicksRead(r, row.record, name, lines, line);
  }

  lemma MergePicksRead(r: PlayerRecord, s: PlayerRecord, name: string, lines: seq<string>, line: string)
    requires RecordReads(r, name, lines) && RowIn(line).Some? && RowIn(line).value.name == name
      && RowIn(line).value.record == s
    ensures PicksRead(Merge(r, s).skillPickCounts, name, lines + [line])
  {
    hide RowIn, CounterOf;
    var p, q := r.skillPickCounts, s.skillPickCounts;
    var merged := MergePicks(p, q);
    forall skill
      ensures skill in merged <==> Sum(RowsWithPick(name, skill), lines + [line]) > 0
      ensures PickCount(merged, skill) == Min(U16_MAX, Sum(PicksOfName(name, skill), lines + [line]))
    {
      SumAppend(RowsWithPick(name, skill), lines, line);
      SumAppend(PicksOfName(name, skill), lines, line);
      assert PickCount(merged, skill) == SaturatingAdd(PickCount(p, skill), PickCount(q, skill), U16_MAX);
    }
  }

  /** The first row of a player is the sum so far: the earlier lines hold none. */
  lemma FirstLine(name: string, lines: seq<string>, line: string)
    requires Sum(RowsOfName(name), lines) == 0 && RowIn(line).Some? && RowIn(line).value.name == name
    ensures RecordReads(RowIn(line).value.record, name, lines + [line])
  {
    hide RowIn, CounterOf, CapOf, PicksRead, Sum;
    var r := RowIn(line).value.record;
    forall c ensures CounterOf(r, c) == Min(CapOf(c), Sum(CounterOfName(name, c), lines + [line])) {
      FirstCounter(name, lines, line, c);
    }
    FirstPicks(name, lines, line);
  }

  lemma FirstCounter(name: string, lines: seq<string>, line: string, c: CounterName)
    requires Sum(RowsOfName(name), lines) == 0 && RowIn(line).Some? && RowIn(line).value.name == name
    ensures CounterOf(RowIn(line).value.record, c) == Min(CapOf(c), Sum(CounterOfName(name, c), lines + [line]))
  {
    hide RowIn, Sum;
    SumAppend(CounterOfName(name, c), lines, line);
    NoRowsNoSum(CounterOfName(name, c), lines);
  }

  lemma FirstPicks(name: string, lines: seq<string>, line: string)
    requires Sum(RowsOfName(name), lines) == 0 && RowIn(line).Some? && RowIn(line).value.name == name
    ensures PicksRead(RowIn(line).value.record.skillPickCounts, name, lines + [line])
  {
    hide RowIn, CounterOf, Sum;
    var r := RowIn(line).value.record;
    forall skill
      ensures skill in r.skillPickCounts <==> Sum(RowsWithPick(name, skill), lines + [line]) > 0
      ensures PickCount(r.skillPickCounts, skill) == Min(U16_MAX, Sum(PicksOfName(name, skill), lines + [line]))
    {
      SumAppend(RowsWithPick(name, skill), lines, line);
      SumAppend(PicksOfName(name, skill), lines, line);
      NoRowsNoSum(RowsWithPick(name, skill), lines);
      NoRowsNoSum(PicksOfName(name, skill), lines);
    }
  }

  lemma {:induction false} NoRowsNoSum(mu: Measure, lines: seq<string>)
    requires !mu.RowsOfId? && Sum(RowsOfName(mu.name), lines) == 0
    ensures Sum(mu, lines) == 0
    decreases |lines|
  {
    hide RowIn, CounterOf;
    if lines != [] {
      NoRowsNoSum(mu, lines[..|lines| - 1]);
    }
  }

  lemma AddLineReads(t: Table, lines: seq<string>, line: string, n: nat)
    requires TableReads(t, lines) && AddLine(t, line, n).Ok?
    ensures TableReads(AddLine(t, line, n).value, lines + [line])
  {
    hide RecordReads, RowOfLine, Merge, IsBlank;
    var after := AddLine(t, line, n).value;
    forall name ensures name in after.records <==> Sum(RowsOfName(name), lines + [line]) > 0 {
      SumAppend(RowsOfName(name), lines, line);
    }
    forall id: u32 ensures id in after.ids <==> Sum(RowsOfId(id), lines + [line]) > 0 {
      SumAppend(RowsOfId(id), lines, line);
    }
    forall name | name in after.records ensures RecordReads(after.records[name], name, lines + [line]) {
      if RowIn(line).None? || RowIn(line).value.name != name {
        OtherLine(t.records[name], name, lines, line);
      } else if name in t.records {
        OwnLine(t.records[name], name, lines, line);
      } else {
        FirstLine(name, lines, line);
      }
    }
  }

  /** Every accepted file, legacy or not, is the saturated sum of its rows. */
  lemma {:induction false} AcceptedIsSummed(lines: seq<string>, n: nat)
    requires n <= |lines| && TableUpTo(lines, n).Ok?
    ensures TableReads(TableUpTo(lines, n).value, lines[..n])
  {
    hide TableReads, AddLine;
    if n == 0 {
      EmptyReads();
    } else {
      AcceptedIsSummed(lines, n - 1);
      AddLineReads(TableUpTo(lines, n - 1).value, lines[..n - 1], lines[n - 1], n);
      assert lines[..n] == lines[..n - 1] + [lines[n - 1]];
    }
  }

  lemma EmptyReads()
    ensures TableReads(Table(map[], {}), [])
  {
  }

  lemma RecordsEqual(a: PlayerRecord, b: PlayerRecord, name: string, la: seq<string>, lb: seq<string>)
    requires RecordReads(a, name, la) && RecordReads(b, name, lb) && multiset(la) == multiset(lb)
    ensures a == b
  {
    forall c ensures CounterOf(a, c) == CounterOf(b, c) {
      SumPermutes(CounterOfName(name, c), la, lb);
    }
    forall skill
      ensures skill in a.skillPickCounts <==> skill in b.skillPickCounts
      ensures PickCount(a.skillPickCounts, skill) == PickCount(b.skillPickCounts, skill)
    {
      SumPermutes(RowsWithPick(name, skill), la, lb);
      SumPermutes(PicksOfName(name, skill), la, lb);
    }
    SameCounters(a, b);
    SamePicks(a.skillPickCounts, b.skillPickCounts);
  }

  lemma SamePicks(p: Picks, q: Picks)
    requires forall skill :: (skill in p <==> skill in q) && PickCount(p, skill) == PickCount(q, skill)
    ensures p == q
  {
    forall skill | skill in p ensures skill in q && p[skill] == q[skill] {
      assert PickCount(p, skill) == PickCount(q, skill);
    }
    assert p.Keys == q.Keys;
  }

  lemma SameCounters(a: PlayerRecord, b: PlayerRecord)
    requires forall c :: CounterOf(a, c) == CounterOf(b, c)
    ensures a.(skillPickCounts := b.skillPickCounts) == b
  {
    assert CounterOf(a, Wins) == CounterOf(b, Wins) && CounterOf(a, Losses) == CounterOf(b, Losses);
    assert CounterOf(a, NoContests) == CounterOf(b, NoContests) && CounterOf(a, RoundWins) == CounterOf(b, RoundWins);
    assert CounterOf(a, RoundLosses) == CounterOf(b, RoundLosses)
      && CounterOf(a, DamageDone) == CounterOf(b, DamageDone);
    assert CounterOf(a, HealingDone) == CounterOf(b, HealingDone) && CounterOf(a, CombatMs) == CounterOf(b, CombatMs);
    assert CounterOf(a, CcUsed) == CounterOf(b, CcUsed) && CounterOf(a, CcHits) == CounterOf(b, CcHits);
  }

  /** Two accepted files with the same lines in any order hold the same table. */
  lemma AcceptedTablesAgree(a: seq<string>, b: seq<string>)
    requires multiset(a) == multiset(b) && ParsedLines(a).Ok? && ParsedLines(b).Ok?
    ensures ParsedLines(a) == ParsedLines(b)
  {
    hide RecordReads;
    AcceptedIsSummed(a, |a|);
    AcceptedIsSummed(b, |b|);
    assert a[..|a|] == a && b[..|b|] == b;
    var ta, tb := TableUpTo(a, |a|).value, TableUpTo(b, |b|).value;
    forall name ensures name in ta.records <==> name in tb.records {
      SumPermutes(RowsOfName(name), a, b);
    }
    forall name | name in ta.records ensures ta.records[name] == tb.records[name] {
      RecordsEqual(ta.records[name], tb.records[name], name, a, b);
    }
    assert ta.records.Keys == tb.records.Keys;
    assert ta.records == tb.records;
  }

  // ----- which files are accepted

  predicate IsLegacyLine(line: string) { IsBlank(line) || |Split(line, '\t')| in {5, 13} }

  predicate IsWellFormed(line: string) { IsBlank(line) || RowOfLine(line).Some? }

  ghost predicate NoRepeats(lines: seq<string>) { forall id: u32 :: Sum(RowsOfId(id), lines) <= 1 }

  /** A row without an id comes before every other row of its player. */
  ghost predicate ComesFirst(lines: seq<string>, i: nat)
    requires i < |lines|
  {
    RowIn(lines[i]).Some? && RowIn(lines[i]).value.id.None? ==>
      Sum(RowsOfName(RowIn(lines[i]).value.name), lines[..i]) == 0
  }

  /** What the first `n` lines must satisfy. */
  ghost predicate Acceptable(lines: seq<string>, n: nat)
    requires n <= |lines|
  {
    && (forall i :: 0 <= i < n ==> IsWellFormed(lines[i])) && NoRepeats(lines[..n])
    && (forall i :: 0 <= i < n ==> ComesFirst(lines, i))
  }

  /**
   A file is accepted exactly when every row is well formed, no id repeats, and every row without an id is its
   player's first.
   */
  lemma {:induction false} Acceptance(lines: seq<string>, n: nat)
    requires n <= |lines|
    ensures TableUpTo(lines, n).Ok? <==> Acceptable(lines, n)
  {
    hide IsWellFormed, NoRepeats, AddLine, ComesFirst, TableReads;
    if n == 0 {
      NothingRepeats();
    } else {
      Acceptance(lines, n - 1);
      assert lines[..n] == lines[..n - 1] + [lines[n - 1]];
      RepeatsStay(lines[..n - 1], lines[n - 1]);
      if TableUpTo(lines, n - 1).Ok? {
        AcceptedIsSummed(lines, n - 1);
        LineAccepted(TableUpTo(lines, n - 1).value, lines, n - 1);
      }
    }
  }

  lemma LineAccepted(t: Table, lines: seq<string>, i: nat)
    requires i < |lines| && TableReads(t, lines[..i]) && NoRepeats(lines[..i])
    ensures AddLine(t, lines[i], i + 1).Ok?
       <==> IsWellFormed(lines[i]) && NoRepeats(lines[..i] + [lines[i]]) && ComesFirst(lines, i)
  {
    hide RecordReads, RowOfLine, Merge, IsBlank, Split, Sum;
    var before, line := lines[..i], lines[i];
    forall id: u32 ensures Sum(RowsOfId(id), before + [line]) == Sum(RowsOfId(id), before) + Weigh(RowsOfId(id), line) {
      SumAppend(RowsOfId(id), before, line);
    }
    if RowIn(line).Some? && RowIn(line).value.id.Some? {
      IdWeighs(line, RowIn(line).value.id.value);
    }
  }

  // ----- legacy files

  lemma LegacyRowsHaveIds(line: string)
    requires IsLegacyLine(line) && RowIn(line).Some?
    ensures RowIn(line).value.id.Some?
  {
  }

  /** A file of legacy rows is accepted exactly when every row is well formed and no id repeats. */
  lemma LegacyAcceptance(lines: seq<string>, n: nat)
    requires n <= |lines| && forall i :: 0 <= i < |lines| ==> IsLegacyLine(lines[i])
    ensures TableUpTo(lines, n).Ok? <==> (forall i :: 0 <= i < n ==> IsWellFormed(lines[i])) && NoRepeats(lines[..n])
  {
    hide TableUpTo, IsWellFormed, IsLegacyLine, NoRepeats, RowIn;
    Acceptance(lines, n);
    forall i | 0 <= i < n ensures ComesFirst(lines, i) {
      if RowIn(lines[i]).Some? {
        LegacyRowsHaveIds(lines[i]);
      }
    }
  }

  lemma NothingRepeats()
    ensures NoRepeats([])
  {
  }

  lemma RepeatsStay(lines: seq<string>, line: string)
    ensures NoRepeats(lines + [line]) ==> NoRepeats(lines)
  {
    hide RowIn;
    if NoRepeats(lines + [line]) {
      forall id: u32 ensures Sum(RowsOfId(id), lines) <= 1 {
        SumAppend(RowsOfId(id), lines, line);
      }
    }
  }

  /** Reordering the lines of a file of legacy rows changes neither acceptance nor the table. */
  lemma LegacyOrderIsIrrelevant(a: seq<string>, b: seq<string>)
    requires multiset(a) == multiset(b) && forall l <- a :: IsLegacyLine(l)
    ensures ParsedLines(a).Ok? <==> ParsedLines(b).Ok?
    ensures ParsedLines(a).Ok? ==> ParsedLines(a) == ParsedLines(b)
  {
    hide IsLegacyLine, IsWellFormed, TableUpTo;
    assert forall l :: l in a <==> l in multiset(a);
    assert forall l :: l in b <==> l in multiset(b);
    assert a[..|a|] == a && b[..|b|] == b;
    LegacyAcceptance(a, |a|);
    LegacyAcceptance(b, |b|);
    SameRepeats(a, b);
    SameForm(a, b);
    if ParsedLines(a).Ok? {
      AcceptedTablesAgree(a, b);
    }
  }

  lemma SameForm(a: seq<string>, b: seq<string>)
    requires forall l :: l in a <==> l in b
    ensures (forall i :: 0 <= i < |a| ==> IsWellFormed(a[i])) <==> (forall i :: 0 <= i < |b| ==> IsWellFormed(b[i]))
  {
    hide IsWellFormed;
    assert forall i :: 0 <= i < |a| ==> a[i] in a;
    assert forall i :: 0 <= i < |b| ==> b[i] in b;
  }

  lemma SameRepeats(a: seq<string>, b: seq<string>)
    requires multiset(a) == multiset(b)
    ensures NoRepeats(a) <==> NoRepeats(b)
  {
    forall id: u32 ensures Sum(RowsOfId(id), a) == Sum(RowsOfId(id), b) {
      SumPermutes(RowsOfId(id), a, b);
    }
  }

  // ----- when order matters

  /** Some player has a row without an id together with another row. */
  ghost predicate MixesRows(lines: seq<string>) {
    exists name :: Sum(PlainRowsOfName(name), lines) > 0 && Sum(RowsOfName(name), lines) > 1
  }

  lemma {:induction false} Contributor(mu: Measure, lines: seq<string>) returns (i: nat)
    requires Sum(mu, lines) > 0
    ensures i < |lines| && Weigh(mu, lines[i]) > 0
  {
    i := |lines| - 1;
    if Weigh(mu, lines[i]) == 0 {
      i := Contributor(mu, lines[..|lines| - 1]);
    }
  }

  lemma {:induction false} PrefixSum(mu: Measure, lines: seq<string>, i: nat)
    requires i < |lines|
    ensures Sum(mu, lines[..i]) + Weigh(mu, lines[i]) <= Sum(mu, lines)
  {
    hide Weigh;
    if i == |lines| - 1 {
      assert lines[..i] == lines[..|lines| - 1];
    } else {
      PrefixSum(mu, lines[..|lines| - 1], i);
      assert lines[..|lines| - 1][..i] == lines[..i];
    }
  }

  /** Where no player mixes rows, any order puts rows without an id first. */
  lemma UnmixedComeFirst(lines: seq<string>, i: nat)
    requires !MixesRows(lines) && i < |lines|
    ensures ComesFirst(lines, i)
  {
    hide RowIn, Sum;
    if RowIn(lines[i]).Some? && RowIn(lines[i]).value.id.None? {
      var name := RowIn(lines[i]).value.name;
      PrefixSum(RowsOfName(name), lines, i);
      PrefixSum(PlainRowsOfName(name), lines, i);
    }
  }

  /** A player's row without an id, moved behind another row of theirs, is refused. */
  lemma MovedBehindIsRefused(lines: seq<string>) returns (p: seq<string>)
    requires MixesRows(lines)
    ensures multiset(p) == multiset(lines) && ParsedLines(p).Err?
  {
    hide RowIn, Sum, TableUpTo, IsWellFormed, NoRepeats;
    var name :| Sum(PlainRowsOfName(name), lines) > 0 && Sum(RowsOfName(name), lines) > 1;
    var i := Contributor(PlainRowsOfName(name), lines);
    var rest := lines[..i] + lines[i + 1..];
    SumRemove(RowsOfName(name), lines, i);
    WithoutOne(lines, i);
    p := rest + [lines[i]];
    assert lines[i] in lines;
    assert p[..|rest|] == rest;
    Acceptance(p, |p|);
    assert !ComesFirst(p, |rest|);
  }

  /**
   Every reordering of an accepted file means the same table exactly when no player has a row without an id
   together with another row.
   */
  lemma OrderIsFreeIffUnmixed(lines: seq<string>)
    requires ParsedLines(lines).Ok?
    ensures (forall p :: multiset(p) == multiset(lines) ==> ParsedLines(p) == ParsedLines(lines)) <==> !MixesRows(lines)
  {
    hide ParsedLines, RowIn, Weigh;
    if MixesRows(lines) {
      var p := MovedBehindIsRefused(lines);
      assert ParsedLines(p) != ParsedLines(lines);
    } else {
      forall p | multiset(p) == multiset(lines) ensures ParsedLines(p) == ParsedLines(lines) {
        UnmixedReorders(lines, p);
      }
    }
  }

  lemma UnmixedReorders(lines: seq<string>, p: seq<string>)
    requires ParsedLines(lines).Ok? && !MixesRows(lines) && multiset(p) == multiset(lines)
    ensures ParsedLines(p) == ParsedLines(lines)
  {
    hide RowIn, Sum, TableUpTo, IsWellFormed, NoRepeats, ComesFirst;
    assert forall l :: l in lines <==> l in multiset(lines);
    assert forall l :: l in p <==> l in multiset(p);
    assert lines[..|lines|] == lines && p[..|p|] == p;
    Acceptance(lines, |lines|);
    Acceptance(p, |p|);
    SameForm(lines, p);
    SameRepeats(lines, p);
    if MixesRows(p) {
      SameMixing(lines, p);
    }
    forall i | 0 <= i < |p| ensures ComesFirst(p, i) {
      UnmixedComeFirst(p, i);
    }
    AcceptedTablesAgree(p, lines);
  }

  lemma SameMixing(a: seq<string>, b: seq<string>)
    requires multiset(a) == multiset(b) && MixesRows(b)
    ensures MixesRows(a)
  {
    hide Sum;
    var name :| Sum(PlainRowsOfName(name), b) > 0 && Sum(RowsOfName(name), b) > 1;
    SumPermutes(PlainRowsOfName(name), a, b);
    SumPermutes(RowsOfName(name), a, b);
  }

  // ----- repeated ids, and a file whose order matters

  /** A file with a legacy id on two rows is rejected, whatever else it holds. */
  lemma RepeatedIdIsRejected(lines: seq<string>, i: nat, j: nat)
    requires i < j < |lines| && RowIn(lines[i]).Some? && RowIn(lines[j]).Some?
    requires RowIn(lines[i]).value.id.Some? && RowIn(lines[i]).value.id == RowIn(lines[j]).value.id
    ensures ParsedLines(lines).Err?
  {
    hide RowIn, Weigh, RecordReads, AddLine;
    if TableUpTo(lines, |lines|).Ok? {
      if TableUpTo(lines, j).Err? {
        TableErrorStays(lines, j, |lines|);
      }
      if TableUpTo(lines, j + 1).Err? {
        TableErrorStays(lines, j + 1, |lines|);
      }
      AcceptedIsSummed(lines, j);
      var id := RowIn(lines[i]).value.id.value;
      SumRemove(RowsOfId(id), lines[..j], i);
      IdWeighs(lines[i], id);
      assert id in TableUpTo(lines, j).value.ids;
      RepeatFails(TableUpTo(lines, j).value, lines[j], j + 1);
    }
  }

  lemma IdWeighs(line: string, id: u32)
    requires RowIn(line).Some? && RowIn(line).value.id == Some(id)
    ensures Weigh(RowsOfId(id), line) == 1
  {
    hide RowIn, CounterOf, PickCount;
  }

  lemma RepeatFails(t: Table, line: string, n: nat)
    requires RowIn(line).Some? && RowIn(line).value.id.Some? && RowIn(line).value.id.value in t.ids
    ensures AddLine(t, line, n).Err?
  {
  }

  /** Such files exist: two rows of one player, accepted in one order and refused in the other. */
  lemma MixedOrderMatters(name: string, r: PlayerRecord, legacy: string)
    requires ValidName(name) && CleanPicks(r.skillPickCounts)
    requires RowIn(legacy).Some? && RowIn(legacy).value.name == name && RowIn(legacy).value.id.Some?
    ensures ParsedLines([RecordLine(name, r), legacy]).Ok?
    ensures ParsedLines([legacy, RecordLine(name, r)]) == Err(DuplicatePlayerName(2, name))
  {
    hide RowOfLine, RecordLine, Merge, IsBlank;
    RowRoundTrip(name, r);
    RowIsLine(name, r);
    var a, b := [RecordLine(name, r), legacy], [legacy, RecordLine(name, r)];
    var empty := Table(map[], {});
    assert TableUpTo(a, 0) == Ok(empty) && TableUpTo(b, 0) == Ok(empty);
    assert TableUpTo(a, 1) == AddLine(empty, a[0], 1) && TableUpTo(b, 1) == AddLine(empty, b[0], 1);
    assert TableUpTo(a, 2) == AddLine(TableUpTo(a, 1).value, a[1], 2);
    assert TableUpTo(b, 2) == AddLine(TableUpTo(b, 1).value, b[1], 2);
  }

  /** The printed row behind an id. */
  function LegacyLine(name: string, r: PlayerRecord, id: u32): string {
    Join([PrintNat(id)] + RecordFields(name, r), '\t')
  }

  lemma LegacyFields(name: string, r: PlayerRecord, id: u32)
    requires ValidName(name) && CleanPicks(r.skillPickCounts)
    ensures Split(LegacyLine(name, r, id), '\t') == [PrintNat(id)] + RecordFields(name, r)
  {
    hide RecordFields, PrintNat, ValidName, CleanPicks;
    var fields := [PrintNat(id)] + RecordFields(name, r);
    forall i | 0 <= i < 13 ensures '\t' !in fields[i] {
      if i == 0 {
        DigitsAreClean(id);
      } else {
        FieldIsClean(name, r, i - 1);
      }
    }
    SplitOfJoin(fields, '\t');
  }

  lemma LegacyLineIsNotBlank(name: string, r: PlayerRecord, id: u32)
    ensures !IsBlank(LegacyLine(name, r, id))
  {
    hide RecordFields, PrintNat, IsBlank;
    var line := LegacyLine(name, r, id);
    DigitsAreClean(id);
    assert line[0] == PrintNat(id)[0] && PrintNat(id)[0] in PrintNat(id);
    BlankMeansWhitespace(line);
    assert line[0] in line && !IsWhitespace(line[0]);
  }

  /** Such a legacy row exists for every player and id. */
  lemma LegacyRowExists(name: string, r: PlayerRecord, id: u32)
    requires ValidName(name) && CleanPicks(r.skillPickCounts) && id > 0
    ensures RowIn(LegacyLine(name, r, id)) == Some(Row(Some(id), name, r))
  {
    hide ParseExtended, IsBlank, ParseUnsigned, PrintNat, LegacyLine, ValidName, RecordFields, ParseName, ParseMinimal;
    LegacyFields(name, r, id);
    LegacyLineIsNotBlank(name, r, id);
    ParseOfPrint(id, U32_MAX);
    NameRoundTrip(name);
    ExtendedRoundTrip(name, r);
    FirstField(name, r);
    var fields := [PrintNat(id)] + RecordFields(name, r);
    assert fields[2..] == RecordFields(name, r)[1..];
  }
}
