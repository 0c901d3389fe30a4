/** The combat feedback of a running match: two ledgers kept side by side and a queue of texts per player. */
module CombatLedger {
  import opened Prelude
  import opened CombatEvents
  import opened CombatScene
  import opened Ordering
  import opened Text

  datatype CombatSummaryLine = CombatSummaryLine(playerId: PlayerId, playerName: string, team: TeamSide,
                                                 totals: SummaryTotals)

  datatype RoundSummarySnapshot = RoundSummarySnapshot(round: u8, roundTotals: seq<CombatSummaryLine>,
                                                       runningTotals: seq<CombatSummaryLine>)

  datatype MatchSummarySnapshot = MatchSummarySnapshot(roundsPlayed: u8, totals: seq<CombatSummaryLine>)

  datatype PlayerCombatRecordTotals =
    PlayerCombatRecordTotals(damageDone: u32, healingDone: u32, ccUsed: u16, ccHits: u16)

  function SummaryLine(a: TeamAssignment, totals: SummaryTotals): CombatSummaryLine {
    CombatSummaryLine(a.playerId, a.playerName, a.team, totals)
  }

  /** One line per roster entry, in roster order. */
  function SummaryLines(roster: seq<TeamAssignment>, totals: map<PlayerId, SummaryTotals>)
    : (lines: seq<CombatSummaryLine>)
    ensures |lines| == |roster|
    ensures forall i :: 0 <= i < |roster| ==> lines[i] == SummaryLine(roster[i], TotalsOf(totals, roster[i].playerId))
  {
    if roster == [] then [] else
      [SummaryLine(roster[0], TotalsOf(totals, roster[0].playerId))] + SummaryLines(roster[1..], totals)
  }

  /** Every line names its roster entry and shows this round's counters. */
  ghost predicate ShowRound(lines: seq<CombatSummaryLine>, roster: seq<TeamAssignment>, log: seq<Event>) {
    && |lines| == |roster|
    && forall i, stat :: 0 <= i < |roster| ==>
         && SummaryLine(roster[i], lines[i].totals) == lines[i]
         && Get(lines[i].totals, stat) == Saturated(stat, RoundTotal(log, roster[i].playerId, stat))
  }

  /** Every line names its roster entry and shows the match's counters. */
  ghost predicate ShowMatch(lines: seq<CombatSummaryLine>, roster: seq<TeamAssignment>, log: seq<Event>) {
    && |lines| == |roster|
    && forall i, stat :: 0 <= i < |roster| ==>
         && SummaryLine(roster[i], lines[i].totals) == lines[i]
         && Get(lines[i].totals, stat) == Saturated(stat, MatchTotal(log, roster[i].playerId, stat))
  }

  function SaturatingAdd32(a: u32, b: u16): u32 { Min(a + b, U32_MAX) }

  function SaturatingIncrement16(a: u16): u16 { Min(a + 1, U16_MAX) }

  function KeysOf(r: seq<(PlayerId, seq<TextEntry>)>): set<PlayerId> { set e | e in r :: e.0 }

  ghost predicate AscendingKeys(r: seq<(PlayerId, seq<TextEntry>)>) {
    forall i, j :: 0 <= i < j < |r| ==> r[i].0 < r[j].0
  }

  class MatchCombatFeedback {
    var roundTotals: map<PlayerId, SummaryTotals>
    var runningTotals: map<PlayerId, SummaryTotals>
    var pendingText: map<PlayerId, seq<TextEntry>>
    /** Everything that happened. */
    ghost var log: seq<Event>

    ghost predicate Valid()
      reads this
    {
      HoldsRound(roundTotals, log) && HoldsMatch(runningTotals, log) && HoldsPending(pendingText, log)
    }

    constructor ()
      ensures Valid() && log == []
    {
      roundTotals, runningTotals, pendingText, log := map[], map[], map[], [];
      new;
      NothingCounted();
    }

    /** Books a credit once both ledgers have it. */
    ghost method Log(e: Event, round: map<PlayerId, SummaryTotals>, running: map<PlayerId, SummaryTotals>)
      requires e.Credited?
      requires HoldsRound(round, log) && HoldsMatch(running, log) && HoldsPending(pendingText, log)
      requires Raised(round, roundTotals, e.player, e.stat, e.amount)
      requires Raised(running, runningTotals, e.player, e.stat, e.amount)
      modifies `log
      ensures Valid() && log == old(log) + [e]
    {
      CreditIsHeld(round, roundTotals, running, runningTotals, log, e.player, e.stat, e.amount);
      NoTextIsHeld(pendingText, log, e);
      log := log + [e];
    }

    method BumpDamage(player: PlayerId, amount: u16)
      requires Valid()
      modifies this
      ensures Valid() && log == old(log) + [Credited(player, DamageDone, amount)]
    {
      hide HoldsRound, HoldsMatch, HoldsPending, Raised;
      var round := TotalsOf(roundTotals, player);
      RaisesOne(roundTotals, player, DamageDone, amount,
        round.(damageDone := SaturatingAdd32(round.damageDone, amount)));
      roundTotals := roundTotals[player := round.(damageDone := SaturatingAdd32(round.damageDone, amount))];
      var running := TotalsOf(runningTotals, player);
      RaisesOne(runningTotals, player, DamageDone, amount,
        running.(damageDone := SaturatingAdd32(running.damageDone, amount)));
      runningTotals := runningTotals[player := running.(damageDone := SaturatingAdd32(running.damageDone, amount))];
      Log(Credited(player, DamageDone, amount), old(roundTotals), old(runningTotals));
    }

    method BumpHealingToAllies(player: PlayerId, amount: u16)
      requires Valid()
      modifies this
      ensures Valid() && log == old(log) + [Credited(player, HealingToAllies, amount)]
    {
      hide HoldsRound, HoldsMatch, HoldsPending, Raised;
      var round := TotalsOf(roundTotals, player);
      RaisesOne(roundTotals, player, HealingToAllies, amount,
        round.(healingToAllies := SaturatingAdd32(round.healingToAllies, amount)));
      roundTotals := roundTotals[player := round.(healingToAllies := SaturatingAdd32(round.healingToAllies, amount))];
      var running := TotalsOf(runningTotals, player);
      RaisesOne(runningTotals, player, HealingToAllies, amount,
        running.(healingToAllies := SaturatingAdd32(running.healingToAllies, amount)));
      runningTotals :=
        runningTotals[player := running.(healingToAllies := SaturatingAdd32(running.healingToAllies, amount))];
      Log(Credited(player, HealingToAllies, amount), old(roundTotals), old(runningTotals));
    }

    method BumpHealingToEnemies(player: PlayerId, amount: u16)
      requires Valid()
      modifies this
      ensures Valid() && log == old(log) + [Credited(player, HealingToEnemies, amount)]
    {
      hide HoldsRound, HoldsMatch, HoldsPending, Raised;
      var round := TotalsOf(roundTotals, player);
      RaisesOne(roundTotals, player, HealingToEnemies, amount,
        round.(healingToEnemies := SaturatingAdd32(round.healingToEnemies, amount)));
      roundTotals := roundTotals[player := round.(healingToEnemies := SaturatingAdd32(round.healingToEnemies, amount))];
      var running := TotalsOf(runningTotals, player);
      RaisesOne(runningTotals, player, HealingToEnemies, amount,
        running.(healingToEnemies := SaturatingAdd32(running.healingToEnemies, amount)));
      runningTotals :=
        runningTotals[player := running.(healingToEnemies := SaturatingAdd32(running.healingToEnemies, amount))];
      Log(Credited(player, HealingToEnemies, amount), old(roundTotals), old(runningTotals));
    }

    method BumpCcUsed(player: PlayerId)
      requires Valid()
      modifies this
      ensures Valid() && log == old(log) + [Credited(player, CcUsed, 1)]
    {
      hide HoldsRound, HoldsMatch, HoldsPending, Raised;
      var round := TotalsOf(roundTotals, player);
      RaisesOne(roundTotals, player, CcUsed, 1, round.(ccUsed := SaturatingIncrement16(round.ccUsed)));
      roundTotals := roundTotals[player := round.(ccUsed := SaturatingIncrement16(round.ccUsed))];
      var running := TotalsOf(runningTotals, player);
      RaisesOne(runningTotals, player, CcUsed, 1, running.(ccUsed := SaturatingIncrement16(running.ccUsed)));
      runningTotals := runningTotals[player := running.(ccUsed := SaturatingIncrement16(running.ccUsed))];
      Log(Credited(player, CcUsed, 1), old(roundTotals), old(runningTotals));
    }

    method BumpCcHits(player: PlayerId)
      requires Valid()
      modifies this
      ensures Valid() && log == old(log) + [Credited(player, CcHits, 1)]
    {
      hide HoldsRound, HoldsMatch, HoldsPending, Raised;
      var round := TotalsOf(roundTotals, player);
      RaisesOne(roundTotals, player, CcHits, 1, round.(ccHits := SaturatingIncrement16(round.ccHits)));
      roundTotals := roundTotals[player := round.(ccHits := SaturatingIncrement16(round.ccHits))];
      var running := TotalsOf(runningTotals, player);
      RaisesOne(runningTotals, player, CcHits, 1, running.(ccHits := SaturatingIncrement16(running.ccHits)));
      runningTotals := runningTotals[player := running.(ccHits := SaturatingIncrement16(running.ccHits))];
      Log(Credited(player, CcHits, 1), old(roundTotals), old(runningTotals));
    }

    /** Empty texts are dropped; any other joins the end of the recipient's queue. */
    method PushText(recipient: PlayerId, at: Position, style: TextStyle, text: string)
      requires Valid()
      modifies this
      ensures Valid() && log == old(log) + Say(recipient, at, style, text)
    {
      hide HoldsRound, HoldsMatch, HoldsPending;
      if text == [] {
        return;
      }
      var entry := TextEntry(at.0, at.1, style, text);
      TextIsHeld(pendingText, log, recipient, entry);
      OtherEventsAreHeld(roundTotals, runningTotals, log, TextPushed(recipient, entry));
      pendingText := pendingText[recipient := TextsFor(pendingText, recipient) + [entry]];
      log := log + [TextPushed(recipient, entry)];
    }

    /** The summaries show the round just played and the match so far; the next round starts at zero. */
    method FinalizeRound(roster: seq<TeamAssignment>, round: u8) returns (snapshot: RoundSummarySnapshot)
      requires Valid()
      modifies this
      ensures Valid() && log == old(log) + [RoundEnded]
      ensures snapshot.round == round
      ensures ShowRound(snapshot.roundTotals, roster, old(log)) && ShowMatch(snapshot.runningTotals, roster, old(log))
      ensures forall p :: TotalsOf(roundTotals, p) == NO_TOTALS
    {
      snapshot := RoundSummarySnapshot(round, SummaryLines(roster, roundTotals), SummaryLines(roster, runningTotals));
      roundTotals := map[];
      RoundEndIsHeld(runningTotals, log);
      NoTextIsHeld(pendingText, log, RoundEnded);
      log := log + [RoundEnded];
    }

    method BuildMatchSummary(roster: seq<TeamAssignment>, roundsPlayed: u8) returns (snapshot: MatchSummarySnapshot)
      requires Valid()
      ensures snapshot.roundsPlayed == roundsPlayed && ShowMatch(snapshot.totals, roster, log)
    {
      snapshot := MatchSummarySnapshot(roundsPlayed, SummaryLines(roster, runningTotals));
    }

    /** What goes into the player's record: healing counts only where it reached allies. */
    method PlayerRecordTotals(player: PlayerId) returns (r: PlayerCombatRecordTotals)
      requires Valid()
      ensures r.damageDone == Saturated(DamageDone, MatchTotal(log, player, DamageDone))
      ensures r.healingDone == Saturated(HealingToAllies, MatchTotal(log, player, HealingToAllies))
      ensures r.ccUsed == Saturated(CcUsed, MatchTotal(log, player, CcUsed))
      ensures r.ccHits == Saturated(CcHits, MatchTotal(log, player, CcHits))
    {
      var t := TotalsOf(runningTotals, player);
      assert forall stat :: Get(t, stat) == Saturated(stat, MatchTotal(log, player, stat));
      assert t.damageDone == Get(t, DamageDone) && t.healingToAllies == Get(t, HealingToAllies);
      assert t.ccUsed == Get(t, CcUsed) && t.ccHits == Get(t, CcHits);
      r := PlayerCombatRecordTotals(t.damageDone, t.healingToAllies, t.ccUsed, t.ccHits);
    }

    /** Takes the whole queue: everyone with something pending gets all of it, in order, players ascending. */
    method DrainPendingText() returns (r: seq<(PlayerId, seq<TextEntry>)>)
      requires Valid()
      modifies this
      ensures Valid() && log == old(log) + [Drained]
      ensures AscendingKeys(r)
      ensures forall i :: 0 <= i < |r| ==> r[i].1 == PendingFor(old(log), r[i].0) != []
      ensures forall p :: p in KeysOf(r) <==> PendingFor(old(log), p) != []
    {
      var taken := pendingText;
      pendingText := map[];
      DrainIsHeld(log);
      OtherEventsAreHeld(roundTotals, runningTotals, log, Drained);
      log := log + [Drained];
      r := ListTexts(taken);
      assert forall p :: TextsFor(taken, p) == PendingFor(old(log), p);
    }

    /** One entry of the combat log. */
    method ObserveEntry(scene: Scene, entry: CombatEntry)
      requires Valid()
      modifies this
      ensures Valid() && log == old(log) + Effects(scene, entry)
    {
      hide Valid, Say, CanceledText;
      match entry
      case CastStarted(_, _) => ObserveCastStarted(scene, entry);
      case DamageApplied(_, _, _, _) => ObserveDamageApplied(scene, entry);
      case HealingApplied(_, _, _) => ObserveHealingApplied(scene, entry);
      case StatusApplied(_, _, _, _) => ObserveStatusApplied(scene, entry);
      case StatusRemoved(_, _, _) => ObserveStatusRemoved(scene, entry);
      case DispelResult(_, _, _) => ObserveDispelResult(scene, entry);
      case DispelCast(source) => ObserveOwn(scene, source, "Dispel");
      case TriggerResolved(_, _, _, _, _) => ObserveTriggerResolved(scene, entry);
      case ImpactMiss(source) => ObserveOwn(scene, source, "Miss");
      case CastCanceled(player, reason) => ObserveOwn(scene, player, CanceledText(reason));
      case OtherEntry =>
    }

    method ObserveCastStarted(scene: Scene, entry: CombatEntry)
      requires Valid() && entry.CastStarted?
      modifies this
      ensures Valid() && log == old(log) + Effects(scene, entry)
    {
      hide Valid;
      if entry.player == 0 { return; }
      if entry.slot == 0 || (entry.player, entry.slot) !in scene.crowdControlSkills { return; }
      BumpCcUsed(entry.player);
    }

    method ObserveDamageApplied(scene: Scene, entry: CombatEntry)
      requires Valid() && entry.DamageApplied?
      modifies this
      ensures Valid() && log == old(log) + Effects(scene, entry)
    {
      hide Valid, Say, PrintNat;
      if entry.source == 0 { return; }
      BumpDamage(entry.source, entry.amount);
      var at := scene.TargetPosition(entry.kind, entry.target);
      if at.None? { return; }
      PushText(entry.source, at.value, DamageOutgoing, PrintNat(entry.amount));
      if !entry.kind.Player? { return; }
      if entry.target != 0 {
        PushText(entry.target, at.value, DamageIncoming, "-" + PrintNat(entry.amount));
      }
    }

    method ObserveHealingApplied(scene: Scene, entry: CombatEntry)
      requires Valid() && entry.HealingApplied?
      modifies this
      ensures Valid() && log == old(log) + Effects(scene, entry)
    {
      hide Valid, Say, PrintNat, TeamFor, Effects;
      HealingEffects(scene, entry);
      if entry.source == 0 || entry.target == 0 { return; }
      var at := scene.PlayerPosition(entry.target);
      if at.None? { return; }
      if scene.SameTeam(entry.source, entry.target) {
        BumpHealingToAllies(entry.source, entry.amount);
      } else {
        BumpHealingToEnemies(entry.source, entry.amount);
      }
      if entry.source != entry.target {
        PushText(entry.source, at.value, HealOutgoing, "+" + PrintNat(entry.amount));
      }
      PushText(entry.target, at.value, HealIncoming, "+" + PrintNat(entry.amount));
    }

    method ObserveStatusRemoved(scene: Scene, entry: CombatEntry)
      requires Valid() && entry.StatusRemoved?
      modifies this
      ensures Valid() && log == old(log) + Effects(scene, entry)
    {
      hide Valid, Say, RemovedText, IsPositiveStatus;
      if entry.status == "stealth" || entry.target == 0 { return; }
      var at := scene.PlayerPosition(entry.target);
      if at.None? { return; }
      PushText(entry.target, at.value, StatusStyle(entry.status), RemovedText(entry.status, entry.removed));
    }

    method ObserveDispelResult(scene: Scene, entry: CombatEntry)
      requires Valid() && entry.DispelResult?
      modifies this
      ensures Valid() && log == old(log) + Effects(scene, entry)
    {
      hide Valid, Say, PrintNat;
      if entry.removedCount == 0 || entry.source == 0 || entry.target == 0 { return; }
      var at := scene.PlayerPosition(entry.target);
      if at.None? { return; }
      PushText(entry.source, at.value, Utility, "Dispel x" + PrintNat(entry.removedCount));
      PushText(entry.target, at.value, NegativeStatus, "Dispelled");
    }

    /** A text to the acting player, where they stand. */
    method ObserveOwn(scene: Scene, player: u32, text: string)
      requires Valid()
      modifies this
      ensures Valid()
      ensures log == old(log) + match scene.PlayerPosition(player) case Some(at) => Say(player, at, Utility, text)
        case None => []
    {
      if player == 0 { return; }
      var at := scene.PlayerPosition(player);
      if at.None? { return; }
      PushText(player, at.value, Utility, text);
    }

    method ObserveStatusApplied(scene: Scene, entry: CombatEntry)
      requires Valid() && entry.StatusApplied?
      modifies this
      ensures Valid() && log == old(log) + Effects(scene, entry)
    {
      hide Valid, Say, IsPositiveStatus, IsControlStatus, StatusText, TeamFor, Effects;
      StatusEffects(scene, entry);
      KindsAreDisjoint(entry.status);
      var (source, target) := (entry.source, entry.target);
      if entry.status == "stealth" { return; }
      if source == 0 || target == 0 { return; }
      var at := scene.PlayerPosition(target);
      if at.None? { return; }
      var positive := IsPositiveStatus(entry.status);
      if !positive && IsControlStatus(entry.status) && !scene.SameTeam(source, target) {
        BumpCcHits(source);
      }
      var style := if positive then PositiveStatus else NegativeStatus;
      var caption := StatusText(entry.status, entry.stacks);
      if source != target {
        PushText(source, at.value, style, caption);
      }
      PushText(target, at.value, style, caption);
    }

    method ObserveTriggerResolved(scene: Scene, entry: CombatEntry)
      requires Valid() && entry.TriggerResolved?
      modifies this
      ensures Valid() && log == old(log) + Effects(scene, entry)
    {
      hide Valid, Say, PrintNat;
      if entry.source == 0 { return; }
      var at := scene.TargetPosition(entry.kind, entry.target);
      if at.None? { return; }
      var heal := entry.payload == "heal";
      var text := (if heal then "Bloom +" else "Bloom -") + PrintNat(entry.amount);
      PushText(entry.source, at.value, if heal then HealOutgoing else Utility, text);
      if !entry.kind.Player? { return; }
      if entry.target != 0 {
        PushText(entry.target, at.value, if heal then HealIncoming else DamageIncoming, text);
      }
    }
  }

  /** The queue as a list, players ascending. */
  method ListTexts(m: map<PlayerId, seq<TextEntry>>) returns (r: seq<(PlayerId, seq<TextEntry>)>)
    ensures AscendingKeys(r)
    ensures forall i :: 0 <= i < |r| ==> r[i].0 in m && r[i].1 == m[r[i].0]
    ensures KeysOf(r) == m.Keys
  {
    hide Listed;
    r := [];
    var rest := m.Keys;
    NothingListed(m);
    while rest != {}
      invariant Listed(m, rest, r)
      decreases |rest|
    {
      var p: PlayerId := Smallest(rest);
      ListNext(m, rest, r, p);
      r := r + [(p, m[p])];
      rest := rest - {p};
    }
    AllListed(m, r);
  }

  /** The list so far holds every player but the `rest`, who all come later. */
  ghost predicate Listed(m: map<PlayerId, seq<TextEntry>>, rest: set<PlayerId>, r: seq<(PlayerId, seq<TextEntry>)>) {
    && rest <= m.Keys && AscendingKeys(r) && KeysOf(r) == m.Keys - rest
    && forall i :: 0 <= i < |r| ==> r[i].0 in m && r[i].1 == m[r[i].0] && forall p <- rest :: r[i].0 < p
  }

  lemma NothingListed(m: map<PlayerId, seq<TextEntry>>)
    ensures Listed(m, m.Keys, [])
  {
  }

  lemma AllListed(m: map<PlayerId, seq<TextEntry>>, r: seq<(PlayerId, seq<TextEntry>)>)
    requires Listed(m, {}, r)
    ensures AscendingKeys(r) && KeysOf(r) == m.Keys
    ensures forall i :: 0 <= i < |r| ==> r[i].0 in m && r[i].1 == m[r[i].0]
  {
  }

  lemma ListNext(m: map<PlayerId, seq<TextEntry>>, rest: set<PlayerId>, r: seq<(PlayerId, seq<TextEntry>)>, p: PlayerId)
    requires Listed(m, rest, r) && IsSmallest(p, rest)
    ensures p in m && Listed(m, rest - {p}, r + [(p, m[p])])
  {
    OneMoreKey(r, (p, m[p]));
    hide KeysOf;
    var next := r + [(p, m[p])];
    forall i | 0 <= i < |next|
      ensures next[i].0 in m && next[i].1 == m[next[i].0] && forall q <- rest - {p} :: next[i].0 < q
    {
    }
  }

  lemma OneMoreKey(r: seq<(PlayerId, seq<TextEntry>)>, e: (PlayerId, seq<TextEntry>))
    ensures KeysOf(r + [e]) == KeysOf(r) + {e.0}
  {
    assert forall x :: x in r + [e] <==> x in r || x == e;
  }
}
