/** What happens in a match as the feedback sees it, and what any record of it ought to say. */
module CombatEvents {
  import opened Prelude

  type PlayerId = x: u32 | x != 0 witness 1

  datatype Stat = DamageDone | HealingToAllies | HealingToEnemies | CcUsed | CcHits

  datatype TextStyle = DamageOutgoing | DamageIncoming | HealOutgoing | HealIncoming
                     | PositiveStatus | NegativeStatus | Utility

  datatype TextEntry = TextEntry(x: i16, y: i16, style: TextStyle, text: string)

  datatype Event = Credited(player: PlayerId, stat: Stat, amount: u16)
                 | TextPushed(recipient: PlayerId, entry: TextEntry)
                 | RoundEnded
                 | Drained

  /** Damage and healing are 32-bit counters, crowd control 16-bit ones. */
  function Cap(stat: Stat): nat { if stat.CcUsed? || stat.CcHits? then U16_MAX else U32_MAX }

  function Saturated(stat: Stat, n: nat): nat { Min(n, Cap(stat)) }

  // ----- counters, unbounded and over the whole log

  function EarnedBy(e: Event, player: PlayerId, stat: Stat): nat {
    if e.Credited? && e.player == player && e.stat == stat then e.amount else 0
  }

  /** Everything ever credited. */
  function MatchTotal(log: seq<Event>, player: PlayerId, stat: Stat): nat {
    if log == [] then 0 else MatchTotal(log[..|log| - 1], player, stat) + EarnedBy(log[|log| - 1], player, stat)
  }

  /** Everything credited since the last round ended. */
  function RoundTotal(log: seq<Event>, player: PlayerId, stat: Stat): nat {
    if log == [] || log[|log| - 1].RoundEnded? then 0 else
      RoundTotal(log[..|log| - 1], player, stat) + EarnedBy(log[|log| - 1], player, stat)
  }

  /** The counter shown at the end of every finished round. */
  function RoundResults(log: seq<Event>, player: PlayerId, stat: Stat): seq<nat> {
    if log == [] then [] else
      var before := log[..|log| - 1];
      RoundResults(before, player, stat)
      + if log[|log| - 1].RoundEnded? then [Saturated(stat, RoundTotal(before, player, stat))] else []
  }

  function Sum(ns: seq<nat>): nat { if ns == [] then 0 else Sum(ns[..|ns| - 1]) + ns[|ns| - 1] }

  /**
   The match counter is the saturated sum of the finished rounds' counters and the current round's, although
   each of those saturates on its own.
   */
  lemma {:induction false} MatchIsSumOfRounds(log: seq<Event>, player: PlayerId, stat: Stat)
    ensures Saturated(stat, MatchTotal(log, player, stat))
         == Saturated(stat, Sum(RoundResults(log, player, stat)) + Saturated(stat, RoundTotal(log, player, stat)))
  {
    hide Cap, Saturated, MatchTotal, RoundTotal, RoundResults, Sum;
    SaturatedAgain(stat, 0);
    if log == [] {
      NothingYet(player, stat);
    } else {
      var before, last := log[..|log| - 1], log[|log| - 1];
      MatchIsSumOfRounds(before, player, stat);
      OneMoreEvent(log, player, stat);
      var results, current := RoundResults(before, player, stat), RoundTotal(before, player, stat);
      SumOfOneMore(results, Saturated(stat, current));
      SaturatedAgain(stat, Sum(results) + Saturated(stat, current));
      SaturatedSum(stat, MatchTotal(before, player, stat), Sum(results), current, EarnedBy(last, player, stat));
    }
  }

  lemma NothingYet(player: PlayerId, stat: Stat)
    ensures MatchTotal([], player, stat) == RoundTotal([], player, stat) == Sum(RoundResults([], player, stat)) == 0
  {
  }

  lemma OneMoreEvent(log: seq<Event>, player: PlayerId, stat: Stat)
    requires log != []
    ensures var before, last := log[..|log| - 1], log[|log| - 1];
            && MatchTotal(log, player, stat) == MatchTotal(before, player, stat) + EarnedBy(last, player, stat)
            && RoundTotal(log, player, stat)
               == (if last.RoundEnded? then 0 else RoundTotal(before, player, stat) + EarnedBy(last, player, stat))
            && RoundResults(log, player, stat)
               == (if last.RoundEnded?
                   then RoundResults(before, player, stat) + [Saturated(stat, RoundTotal(before, player, stat))]
                   else RoundResults(before, player, stat))
  {
  }

  lemma SumOfOneMore(ns: seq<nat>, n: nat)
    ensures Sum([]) == 0 && Sum(ns + [n]) == Sum(ns) + n
  {
    assert (ns + [n])[..|ns|] == ns;
  }

  lemma SaturatedAgain(stat: Stat, n: nat)
    ensures Saturated(stat, 0) == 0 && Saturated(stat, n + Saturated(stat, 0)) == Saturated(stat, n)
  {
  }

  lemma SaturatedSum(stat: Stat, all: nat, finished: nat, current: nat, more: nat)
    requires Saturated(stat, all) == Saturated(stat, finished + Saturated(stat, current))
    ensures Saturated(stat, all + more) == Saturated(stat, finished + Saturated(stat, current + more))
  {
  }

  // ----- combat texts

  /** Everything ever queued for a recipient, in order. */
  function PushedTo(log: seq<Event>, p: PlayerId): seq<TextEntry> {
    if log == [] then [] else
      PushedTo(log[..|log| - 1], p)
      + if log[|log| - 1].TextPushed? && log[|log| - 1].recipient == p then [log[|log| - 1].entry] else []
  }

  /** What has been queued since the last drain. */
  function PendingFor(log: seq<Event>, p: PlayerId): seq<TextEntry> {
    if log == [] || log[|log| - 1].Drained? then [] else
      PendingFor(log[..|log| - 1], p)
      + if log[|log| - 1].TextPushed? && log[|log| - 1].recipient == p then [log[|log| - 1].entry] else []
  }

  /** What the drains handed out, one after another. */
  function DrainedTo(log: seq<Event>, p: PlayerId): seq<TextEntry> {
    if log == [] then [] else
      DrainedTo(log[..|log| - 1], p) + if log[|log| - 1].Drained? then PendingFor(log[..|log| - 1], p) else []
  }

  /** Every queued text is handed out exactly once, in order, or is still waiting behind those that were. */
  lemma {:induction false} EachTextDrainedOnce(log: seq<Event>, p: PlayerId)
    ensures DrainedTo(log, p) + PendingFor(log, p) == PushedTo(log, p)
  {
    if log != [] {
      EachTextDrainedOnce(log[..|log| - 1], p);
    }
  }

  // ----- the ledgers

  datatype SummaryTotals = SummaryTotals(damageDone: u32, healingToAllies: u32, healingToEnemies: u32, ccUsed: u16,
                                         ccHits: u16)

  const NO_TOTALS := SummaryTotals(0, 0, 0, 0, 0)

  /** `entry(player).or_default()` and `get(player).unwrap_or_default()`. */
  function TotalsOf(m: map<PlayerId, SummaryTotals>, player: PlayerId): SummaryTotals {
    if player in m then m[player] else NO_TOTALS
  }

  function Get(t: SummaryTotals, stat: Stat): nat {
    match stat
    case DamageDone => t.damageDone
    case HealingToAllies => t.healingToAllies
    case HealingToEnemies => t.healingToEnemies
    case CcUsed => t.ccUsed
    case CcHits => t.ccHits
  }

  function TextsFor(m: map<PlayerId, seq<TextEntry>>, p: PlayerId): seq<TextEntry> { if p in m then m[p] else [] }

  ghost predicate HoldsRound(m: map<PlayerId, SummaryTotals>, log: seq<Event>) {
    forall p, stat :: Get(TotalsOf(m, p), stat) == Saturated(stat, RoundTotal(log, p, stat))
  }

  ghost predicate HoldsMatch(m: map<PlayerId, SummaryTotals>, log: seq<Event>) {
    forall p, stat :: Get(TotalsOf(m, p), stat) == Saturated(stat, MatchTotal(log, p, stat))
  }

  ghost predicate HoldsPending(m: map<PlayerId, seq<TextEntry>>, log: seq<Event>) {
    && (forall p :: TextsFor(m, p) == PendingFor(log, p))
    && (forall p <- m :: m[p] != [])
  }

  /** `after` is `before` with one counter of one player raised, stopping at its width. */
  ghost predicate Raised(before: map<PlayerId, SummaryTotals>, after: map<PlayerId, SummaryTotals>,
                         player: PlayerId, stat: Stat, amount: nat) {
    forall p, s :: Get(TotalsOf(after, p), s) ==
      if p == player && s == stat then Saturated(s, Get(TotalsOf(before, p), s) + amount)
      else Get(TotalsOf(before, p), s)
  }

  lemma RaisesOne(m: map<PlayerId, SummaryTotals>, player: PlayerId, stat: Stat, amount: nat, t: SummaryTotals)
    requires Get(t, stat) == Saturated(stat, Get(TotalsOf(m, player), stat) + amount)
    requires forall s :: s != stat ==> Get(t, s) == Get(TotalsOf(m, player), s)
    ensures Raised(m, m[player := t], player, stat, amount)
  {
    hide Get, Saturated;
  }

  lemma CreditIsHeld(round: map<PlayerId, SummaryTotals>, round': map<PlayerId, SummaryTotals>,
                     running: map<PlayerId, SummaryTotals>, running': map<PlayerId, SummaryTotals>,
                     log: seq<Event>, player: PlayerId, stat: Stat, amount: u16)
    requires HoldsRound(round, log) && HoldsMatch(running, log)
    requires Raised(round, round', player, stat, amount) && Raised(running, running', player, stat, amount)
    ensures HoldsRound(round', log + [Credited(player, stat, amount)])
    ensures HoldsMatch(running', log + [Credited(player, stat, amount)])
  {
    hide Get, TotalsOf;
    var after := log + [Credited(player, stat, amount)];
    assert after[..|after| - 1] == log;
    forall p, s ensures Get(TotalsOf(round', p), s) == Saturated(s, RoundTotal(after, p, s))
                     && Get(TotalsOf(running', p), s) == Saturated(s, MatchTotal(after, p, s)) {
      assert Get(TotalsOf(round, p), s) == Saturated(s, RoundTotal(log, p, s));
      assert Get(TotalsOf(running, p), s) == Saturated(s, MatchTotal(log, p, s));
    }
  }

  /** Events that credit nothing and end no round leave the ledgers as they are. */
  lemma OtherEventsAreHeld(round: map<PlayerId, SummaryTotals>, running: map<PlayerId, SummaryTotals>,
                           log: seq<Event>, e: Event)
    requires HoldsRound(round, log) && HoldsMatch(running, log) && !e.Credited? && !e.RoundEnded?
    ensures HoldsRound(round, log + [e]) && HoldsMatch(running, log + [e])
  {
    hide Get, TotalsOf;
    assert (log + [e])[..|log|] == log;
  }

  /** Clearing the round ledger starts every counter of the next round at zero and keeps the match. */
  lemma RoundEndIsHeld(running: map<PlayerId, SummaryTotals>, log: seq<Event>)
    requires HoldsMatch(running, log)
    ensures HoldsRound(map[], log + [RoundEnded]) && HoldsMatch(running, log + [RoundEnded])
  {
    hide TotalsOf;
    assert (log + [RoundEnded])[..|log|] == log;
    assert forall p :: TotalsOf(map[], p) == NO_TOTALS by { NothingCounted(); }
    assert forall stat :: Get(NO_TOTALS, stat) == 0;
  }

  lemma NothingCounted()
    ensures forall p :: TotalsOf(map[], p) == NO_TOTALS
    ensures HoldsRound(map[], []) && HoldsMatch(map[], []) && HoldsPending(map[], [])
  {
  }

  lemma TextIsHeld(pending: map<PlayerId, seq<TextEntry>>, log: seq<Event>, p: PlayerId, entry: TextEntry)
    requires HoldsPending(pending, log)
    ensures HoldsPending(pending[p := TextsFor(pending, p) + [entry]], log + [TextPushed(p, entry)])
  {
    var after := log + [TextPushed(p, entry)];
    assert after[..|log|] == log;
    forall q ensures TextsFor(pending[p := TextsFor(pending, p) + [entry]], q) == PendingFor(after, q) {
      assert TextsFor(pending, q) == PendingFor(log, q);
      assert PendingFor(log, q) + [] == PendingFor(log, q);
    }
  }

  lemma NoTextIsHeld(pending: map<PlayerId, seq<TextEntry>>, log: seq<Event>, e: Event)
    requires HoldsPending(pending, log) && !e.TextPushed? && !e.Drained?
    ensures HoldsPending(pending, log + [e])
  {
    assert (log + [e])[..|log|] == log;
    forall q ensures TextsFor(pending, q) == PendingFor(log + [e], q) {
      assert TextsFor(pending, q) == PendingFor(log, q);
      assert PendingFor(log, q) + [] == PendingFor(log, q);
    }
  }

  lemma DrainIsHeld(log: seq<Event>)
    ensures HoldsPending(map[], log + [Drained])
  {
  }
}
