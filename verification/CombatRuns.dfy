/** Whole matches as the combat feedback sees them: what its counters and texts say of every run. */
module CombatRuns {
  import opened CombatEvents
  import opened CombatLedger
  import opened CombatScene
  import opened Ordering
  import opened Prelude

  /** One thing that happens to the feedback. */
  datatype Happening =
    | Observed(scene: Scene, entry: CombatEntry)
    | RoundOver(roster: seq<TeamAssignment>, round: u8)
    | TextsTaken

  function EventsOf(h: Happening): seq<Event> {
    match h
    case Observed(scene, entry) => Effects(scene, entry)
    case RoundOver(_, _) => [RoundEnded]
    case TextsTaken => [Drained]
  }

  /** The log a run leaves: every method of the feedback adds the events of its happening. */
  function LogOf(run: seq<Happening>): seq<Event> {
    if run == [] then [] else LogOf(run[..|run| - 1]) + EventsOf(run[|run| - 1])
  }

  function WorthOf(h: Happening, player: PlayerId, stat: Stat): nat {
    if h.Observed? then Worth(h.scene, h.entry, player, stat) else 0
  }

  /** What the entries of a run are worth to a player. */
  function Earnings(run: seq<Happening>, player: PlayerId, stat: Stat): nat {
    if run == [] then 0 else Earnings(run[..|run| - 1], player, stat) + WorthOf(run[|run| - 1], player, stat)
  }

  /** The same since the last round end. */
  function RoundEarnings(run: seq<Happening>, player: PlayerId, stat: Stat): nat {
    if run == [] || run[|run| - 1].RoundOver? then 0 else
      RoundEarnings(run[..|run| - 1], player, stat) + WorthOf(run[|run| - 1], player, stat)
  }

  lemma {:induction false} RoundOfMore(log: seq<Event>, more: seq<Event>, player: PlayerId, stat: Stat)
    requires forall e <- more :: !e.RoundEnded?
    ensures RoundTotal(log + more, player, stat) == RoundTotal(log, player, stat) + MatchTotal(more, player, stat)
    decreases |more|
  {
    if more == [] {
      assert log + more == log;
    } else {
      var init := more[..|more| - 1];
      assert more[|more| - 1] in more && forall e <- init :: e in more;
      RoundOfMore(log, init, player, stat);
      assert (log + more)[..|log + more| - 1] == log + init;
    }
  }

  /** Over every run the log holds exactly what its entries are worth, in all and since the last round end. */
  lemma {:induction false} LogHoldsEarnings(run: seq<Happening>, player: PlayerId, stat: Stat)
    ensures MatchTotal(LogOf(run), player, stat) == Earnings(run, player, stat)
    ensures RoundTotal(LogOf(run), player, stat) == RoundEarnings(run, player, stat)
  {
    hide EventsOf, WorthOf, MatchTotal, RoundTotal;
    if run == [] {
      NothingYet(player, stat);
    } else {
      LogHoldsEarnings(run[..|run| - 1], player, stat);
      EventsAdd(run[|run| - 1], LogOf(run[..|run| - 1]), player, stat);
    }
  }

  lemma EventsAdd(h: Happening, log: seq<Event>, player: PlayerId, stat: Stat)
    ensures MatchTotal(log + EventsOf(h), player, stat) == MatchTotal(log, player, stat) + WorthOf(h, player, stat)
    ensures RoundTotal(log + EventsOf(h), player, stat)
         == if h.RoundOver? then 0 else RoundTotal(log, player, stat) + WorthOf(h, player, stat)
  {
    hide Effects, Worth, MatchTotal, RoundTotal;
    if h.Observed? {
      ObservedAdds(h.scene, h.entry, log, player, stat);
    } else {
      var after := log + EventsOf(h);
      assert after[..|after| - 1] == log;
      OneMoreEvent(after, player, stat);
    }
  }

  lemma ObservedAdds(scene: Scene, entry: CombatEntry, log: seq<Event>, player: PlayerId, stat: Stat)
    ensures MatchTotal(log + Effects(scene, entry), player, stat)
         == MatchTotal(log, player, stat) + Worth(scene, entry, player, stat)
    ensures RoundTotal(log + Effects(scene, entry), player, stat)
         == RoundTotal(log, player, stat) + Worth(scene, entry, player, stat)
  {
    hide Effects, Worth, MatchTotal, RoundTotal;
    var es := Effects(scene, entry);
    forall e | e in es ensures !e.RoundEnded? {
      OnlyTheNamedHear(scene, entry, e);
    }
    CreditsAreWorth(scene, entry, log, player, stat);
    TotalOfMore(log, es, player, stat);
    RoundOfMore(log, es, player, stat);
  }

  /** The counters of a feedback that went through a run are the saturated sums of what its entries are worth. */
  lemma CountersShowEarnings(f: MatchCombatFeedback, run: seq<Happening>, player: PlayerId, stat: Stat)
    requires f.Valid() && f.log == LogOf(run)
    ensures Get(TotalsOf(f.runningTotals, player), stat) == Saturated(stat, Earnings(run, player, stat))
    ensures Get(TotalsOf(f.roundTotals, player), stat) == Saturated(stat, RoundEarnings(run, player, stat))
  {
    hide Get, TotalsOf, Saturated, LogOf;
    LogHoldsEarnings(run, player, stat);
  }

  /** A match on a fresh feedback: its counters end as the saturated sums of what the entries are worth. */
  method Play(run: seq<Happening>) returns (f: MatchCombatFeedback)
    ensures fresh(f) && f.Valid() && f.log == LogOf(run)
    ensures forall player, stat ::
      && Get(TotalsOf(f.runningTotals, player), stat) == Saturated(stat, Earnings(run, player, stat))
      && Get(TotalsOf(f.roundTotals, player), stat) == Saturated(stat, RoundEarnings(run, player, stat))
  {
    hide Effects;
    f := new MatchCombatFeedback();
    for i := 0 to |run|
      invariant fresh(f) && f.Valid() && f.log == LogOf(run[..i])
    {
      match run[i] {
        case Observed(scene, entry) => f.ObserveEntry(scene, entry);
        case RoundOver(roster, round) => var _ := f.FinalizeRound(roster, round);
        case TextsTaken => var _ := f.DrainPendingText();
      }
      assert run[..i + 1][..i] == run[..i];
    }
    assert run[..|run|] == run;
    forall player, stat
      ensures Get(TotalsOf(f.runningTotals, player), stat) == Saturated(stat, Earnings(run, player, stat))
      ensures Get(TotalsOf(f.roundTotals, player), stat) == Saturated(stat, RoundEarnings(run, player, stat))
    {
      CountersShowEarnings(f, run, player, stat);
    }
  }

  // ----- conservation

  /** The sum of `count` over some players. */
  ghost function Tally(players: set<PlayerId>, count: PlayerId -> nat): nat
    decreases |players|
  {
    if players == {} then 0 else
      var p: PlayerId := Smallest(players);
      count(p) + Tally(players - {p}, count)
  }

  /** Raising one player's count raises the sum by as much. */
  lemma {:induction false} TallyRaised(players: set<PlayerId>, f: PlayerId -> nat, g: PlayerId -> nat, q: PlayerId,
                                       more: nat)
    requires forall p <- players :: g(p) == f(p) + if p == q then more else 0
    ensures Tally(players, g) == Tally(players, f) + if q in players then more else 0
    decreases |players|
  {
    if players != {} {
      var p: PlayerId := Smallest(players);
      TallyRaised(players - {p}, f, g, q, more);
    }
  }

  lemma {:induction false} TallyOfZeros(players: set<PlayerId>, f: PlayerId -> nat)
    requires forall p <- players :: f(p) == 0
    ensures Tally(players, f) == 0
    decreases |players|
  {
    if players != {} {
      TallyOfZeros(players - {Smallest(players)}, f);
    }
  }

  lemma {:induction false} TallyAtLeast(players: set<PlayerId>, f: PlayerId -> nat, q: PlayerId)
    requires q in players
    ensures f(q) <= Tally(players, f)
    decreases |players|
  {
    var p: PlayerId := Smallest(players);
    if p != q {
      TallyAtLeast(players - {p}, f, q);
    }
  }

  lemma {:induction false} TallyOfEqual(players: set<PlayerId>, f: PlayerId -> nat, g: PlayerId -> nat)
    requires forall p <- players :: f(p) == g(p)
    ensures Tally(players, f) == Tally(players, g)
    decreases |players|
  {
    if players != {} {
      TallyOfEqual(players - {Smallest(players)}, f, g);
    }
  }

  datatype Channel = Damage | Healing

  /** What an entry moves: all damage of a player, and all healing by a player of one who stands somewhere. */
  function Moved(h: Happening, channel: Channel): nat {
    if !h.Observed? then 0 else
      match channel
      case Damage => if h.entry.DamageApplied? && h.entry.source != 0 then h.entry.amount else 0
      case Healing =>
        if h.entry.HealingApplied? && h.entry.source != 0 && h.scene.PlayerPosition(h.entry.target).Some?
        then h.entry.amount else 0
  }

  function MovedBy(run: seq<Happening>, channel: Channel): nat {
    if run == [] then 0 else MovedBy(run[..|run| - 1], channel) + Moved(run[|run| - 1], channel)
  }

  /** A player's earnings of damage, or of healing whoever was healed. */
  function Share(run: seq<Happening>, player: PlayerId, channel: Channel): nat {
    match channel
    case Damage => Earnings(run, player, DamageDone)
    case Healing => Earnings(run, player, HealingToAllies) + Earnings(run, player, HealingToEnemies)
  }

  /** Everyone the entries of a run name. */
  function AllNamed(run: seq<Happening>): set<u32> { set h, id | h in run && h.Observed? && id in Named(h.entry) :: id }

  /** What one happening adds to a player's share: all it moves to its source, nothing to others. */
  lemma ShareOfMore(run: seq<Happening>, player: PlayerId, channel: Channel)
    requires run != []
    ensures Share(run, player, channel) == Share(run[..|run| - 1], player, channel)
              + if SourceOf(run[|run| - 1]) == player then Moved(run[|run| - 1], channel) else 0
  {
    hide TeamFor;
  }

  function SourceOf(h: Happening): u32 {
    if h.Observed? && (h.entry.DamageApplied? || h.entry.HealingApplied?) then h.entry.source else 0
  }

  /**
   Over every run, damage done summed over the players is the damage of all entries that have a source, and
   healing to allies and enemies together is the healing of all that have a source and reach someone standing.
   */
  lemma {:induction false} SharesAddUp(run: seq<Happening>, players: set<PlayerId>, channel: Channel)
    requires forall id: u32 :: id in AllNamed(run) && id != 0 ==> id in players
    ensures Tally(players, p => Share(run, p, channel)) == MovedBy(run, channel)
  {
    hide Share, Moved, Named;
    if run == [] {
      NoShares(players, channel);
    } else {
      var before, last := run[..|run| - 1], run[|run| - 1];
      assert forall h <- before :: h in run;
      SharesAddUp(before, players, channel);
      forall p: PlayerId ensures Share(run, p, channel)
                    == Share(before, p, channel) + if SourceOf(last) == p then Moved(last, channel) else 0 {
        ShareOfMore(run, p, channel);
      }
      var f: PlayerId -> nat, g: PlayerId -> nat := p => Share(before, p, channel), p => Share(run, p, channel);
      if SourceOf(last) == 0 {
        NothingMoved(last, channel);
        TallyOfEqual(players, f, g);
      } else {
        SourceIsNamed(last);
        assert last in run;
        var q: PlayerId := SourceOf(last);
        TallyRaised(players, f, g, q, Moved(last, channel));
      }
      assert Tally(players, g) == Tally(players, p => Share(run, p, channel)) by {
        TallyOfEqual(players, g, p => Share(run, p, channel));
      }
      assert Tally(players, f) == Tally(players, p => Share(before, p, channel)) by {
        TallyOfEqual(players, f, p => Share(before, p, channel));
      }
    }
  }

  lemma NoShares(players: set<PlayerId>, channel: Channel)
    ensures Tally(players, p => Share([], p, channel)) == 0
  {
    TallyOfZeros(players, p => Share([], p, channel));
  }

  lemma NothingMoved(h: Happening, channel: Channel)
    requires SourceOf(h) == 0
    ensures Moved(h, channel) == 0
  {
  }

  lemma SourceIsNamed(h: Happening)
    requires SourceOf(h) != 0
    ensures h.Observed? && SourceOf(h) in Named(h.entry)
  {
  }

  /**
   As long as all damage of the match fits the counters' width, the damage counters the feedback shows add up
   to exactly the damage dealt; otherwise to no more.
   */
  lemma ShownDamageAddsUp(f: MatchCombatFeedback, run: seq<Happening>, players: set<PlayerId>)
    requires f.Valid() && f.log == LogOf(run)
    requires forall id: u32 :: id in AllNamed(run) && id != 0 ==> id in players
    ensures var totals := f.runningTotals;
            var shown := Tally(players, p => TotalsOf(totals, p).damageDone);
            && shown <= MovedBy(run, Damage)
            && (MovedBy(run, Damage) <= U32_MAX ==> shown == MovedBy(run, Damage))
  {
    hide LogOf, Earnings, AllNamed, MovedBy, Named, TotalsOf;
    var totals := f.runningTotals;
    var dealt: PlayerId -> nat, shown: PlayerId -> nat := p => Share(run, p, Damage),
      p => TotalsOf(totals, p).damageDone;
    SharesAddUp(run, players, Damage);
    assert Tally(players, dealt) == MovedBy(run, Damage) by {
      TallyOfEqual(players, dealt, p => Share(run, p, Damage));
    }
    forall p: PlayerId ensures shown(p) == Min(dealt(p), U32_MAX) {
      CountersShowEarnings(f, run, p, DamageDone);
    }
    TallyAtMost(players, shown, dealt);
    if MovedBy(run, Damage) <= U32_MAX {
      forall p | p in players ensures shown(p) == dealt(p) {
        TallyAtLeast(players, dealt, p);
      }
      TallyOfEqual(players, shown, dealt);
    }
    assert Tally(players, shown) == Tally(players, p => TotalsOf(totals, p).damageDone) by {
      TallyOfEqual(players, shown, p => TotalsOf(totals, p).damageDone);
    }
  }

  lemma {:induction false} TallyAtMost(players: set<PlayerId>, f: PlayerId -> nat, g: PlayerId -> nat)
    requires forall p <- players :: f(p) <= g(p)
    ensures Tally(players, f) <= Tally(players, g)
    decreases |players|
  {
    if players != {} {
      TallyAtMost(players - {Smallest(players)}, f, g);
    }
  }

  // ----- who hears nothing

  /** A player no entry of a run names is credited with nothing and told nothing. */
  lemma {:induction false} UnnamedAreLeftAlone(run: seq<Happening>, p: PlayerId, stat: Stat)
    requires p !in AllNamed(run)
    ensures PushedTo(LogOf(run), p) == [] && MatchTotal(LogOf(run), p, stat) == 0
  {
    hide Effects, Named;
    if run != [] {
      var before, last := run[..|run| - 1], run[|run| - 1];
      assert last in run && forall h <- before :: h in run;
      UnnamedAreLeftAlone(before, p, stat);
      forall e | e in EventsOf(last)
        ensures !(e.TextPushed? && e.recipient == p) && !(e.Credited? && e.player == p)
      {
        if last.Observed? {
          OnlyTheNamedHear(last.scene, last.entry, e);
        }
      }
      NotTouching(EventsOf(last), p, stat);
      PushedToMore(LogOf(before), EventsOf(last), p);
      TotalOfMore(LogOf(before), EventsOf(last), p, stat);
    }
  }

  lemma {:induction false} NotTouching(es: seq<Event>, p: PlayerId, stat: Stat)
    requires forall e <- es :: !(e.TextPushed? && e.recipient == p) && !(e.Credited? && e.player == p)
    ensures PushedTo(es, p) == [] && MatchTotal(es, p, stat) == 0
  {
    if es != [] {
      var init := es[..|es| - 1];
      assert es[|es| - 1] in es && forall e <- init :: e in es;
      NotTouching(init, p, stat);
    }
  }

  predicate IsStealth(h: Happening) {
    h.Observed? && ((h.entry.StatusApplied? && h.entry.status == "stealth")
                    || (h.entry.StatusRemoved? && h.entry.status == "stealth"))
  }

  function WithoutStealth(run: seq<Happening>): seq<Happening> {
    if run == [] then [] else
      WithoutStealth(run[..|run| - 1]) + if IsStealth(run[|run| - 1]) then [] else [run[|run| - 1]]
  }

  /** Going into stealth and leaving it leaves no trace: without those entries the run reads the same. */
  lemma {:induction false} StealthLeavesNoTrace(run: seq<Happening>)
    ensures LogOf(WithoutStealth(run)) == LogOf(run)
  {
    hide Effects;
    if run != [] {
      var before, last := run[..|run| - 1], run[|run| - 1];
      StealthLeavesNoTrace(before);
      var kept := WithoutStealth(before);
      if IsStealth(last) {
        if Effects(last.scene, last.entry) != [] {
          OnlyTheNamedHear(last.scene, last.entry, Effects(last.scene, last.entry)[0]);
        }
        assert WithoutStealth(run) == kept;
      } else {
        assert (kept + [last])[..|kept|] == kept;
      }
    }
  }
}
