/** Which credits and which combat texts each entry of the combat log is worth. */
module CombatScene {
  import opened Prelude
  import opened CombatEvents
  import opened Text

  datatype TeamSide = TeamA | TeamB

  datatype TeamAssignment = TeamAssignment(playerId: PlayerId, playerName: string, team: TeamSide)

  datatype TargetKind = Player | Deployable

  datatype CancelReason = Manual | Movement | ControlLoss | Defeat | Interrupt

  datatype RemovedReason = Expired | Dispelled | Defeat | DamageBroken | ShieldConsumed

  /** Identifiers are raw numbers; zero names nobody. */
  datatype CombatEntry =
    | CastStarted(player: u32, slot: u8)
    | DamageApplied(source: u32, kind: TargetKind, target: u32, amount: u16)
    | HealingApplied(source: u32, target: u32, amount: u16)
    | StatusApplied(source: u32, target: u32, status: string, stacks: u8)
    | StatusRemoved(target: u32, status: string, removed: RemovedReason)
    | DispelResult(source: u32, target: u32, removedCount: nat)
    | DispelCast(source: u32)
    | TriggerResolved(source: u32, kind: TargetKind, target: u32, payload: string, amount: u16)
    | ImpactMiss(source: u32)
    | CastCanceled(player: u32, canceled: CancelReason)
    | OtherEntry

  type Position = (i16, i16)

  /** What the world, the roster and the equipped skills say when an entry is observed. */
  datatype Scene = Scene(positions: map<PlayerId, Position>, deployables: map<u32, Position>,
                         roster: seq<TeamAssignment>, crowdControlSkills: set<(PlayerId, u8)>)
  {
    function PlayerPosition(id: u32): Option<Position> {
      if id != 0 && id in positions then Some(positions[id]) else None
    }

    function TargetPosition(kind: TargetKind, id: u32): Option<Position> {
      if kind.Player? then PlayerPosition(id)
      else if id in deployables then Some(deployables[id]) else None
    }

    function SameTeam(left: PlayerId, right: PlayerId): bool {
      var (a, b) := (TeamFor(roster, left), TeamFor(roster, right));
      a.Some? && b.Some? && a == b
    }
  }

  /** The first assignment of the player decides. */
  function TeamFor(roster: seq<TeamAssignment>, player: PlayerId): Option<TeamSide> {
    if roster == [] then None
    else if roster[0].playerId == player then Some(roster[0].team) else TeamFor(roster[1..], player)
  }

  predicate IsPositiveStatus(status: string) { status in {"hot", "haste", "shield", "stealth"} }

  predicate IsControlStatus(status: string) { status in {"chill", "root", "silence", "stun", "sleep", "fear"} }

  lemma KindsAreDisjoint(status: string)
    ensures IsControlStatus(status) ==> !IsPositiveStatus(status) && status != "stealth"
  {
  }

  function UpperFirst(c: char): char { if 'a' <= c <= 'z' then c - 32 as char else c }

  function TitleCase(s: string): string { if s == [] then [] else [UpperFirst(s[0])] + s[1..] }

  function StatusText(status: string, stacks: u8): string {
    if stacks > 1 then TitleCase(status) + " x" + PrintNat(stacks) else TitleCase(status)
  }

  function RemovedText(status: string, reason: RemovedReason): string {
    match reason
    case Dispelled => TitleCase(status) + " dispelled"
    case DamageBroken => TitleCase(status) + " broken"
    case ShieldConsumed => "Shield spent"
    case Expired => TitleCase(status) + " faded"
    case Defeat => "Cleared on defeat"
  }

  function CanceledText(reason: CancelReason): string {
    match reason
    case Interrupt => "Interrupted"
    case ControlLoss => "Control lost"
    case Movement => "Cast canceled"
    case Manual => "Canceled"
    case Defeat => "Defeated"
  }

  function StatusStyle(status: string): TextStyle {
    if IsPositiveStatus(status) then PositiveStatus else NegativeStatus
  }

  // ----- who is credited

  /** The one credit an entry can be worth, and to whom: always its source. */
  function Earned(scene: Scene, entry: CombatEntry): seq<Event> {
    match entry
    case CastStarted(player, slot) =>
      if player != 0 && slot != 0 && (player, slot) in scene.crowdControlSkills
      then [Credited(player, CcUsed, 1)] else []
    case DamageApplied(source, _, _, amount) =>
      if source != 0 then [Credited(source, DamageDone, amount)] else []
    case HealingApplied(source, target, amount) =>
      if source != 0 && scene.PlayerPosition(target).Some?
      then [Credited(source, if scene.SameTeam(source, target) then HealingToAllies else HealingToEnemies, amount)]
        else []
    case StatusApplied(source, target, status, _) =>
      if source != 0 && scene.PlayerPosition(target).Some? && IsControlStatus(status) && !scene.SameTeam(source, target)
      then [Credited(source, CcHits, 1)] else []
    case _ => []
  }

  // ----- who reads what

  function Say(recipient: PlayerId, at: Position, style: TextStyle, text: string): seq<Event> {
    if text == [] then [] else [TextPushed(recipient, TextEntry(at.0, at.1, style, text))]
  }

  /** The texts of an entry: the source first, then the target, at the target's position. */
  function Said(scene: Scene, entry: CombatEntry): seq<Event> {
    match entry
    case DamageApplied(source, kind, target, amount) =>
      (match scene.TargetPosition(kind, target)
       case Some(at) =>
         if source == 0 then [] else
           Say(source, at, DamageOutgoing, PrintNat(amount))
           + if kind.Player? then Say(target, at, DamageIncoming, "-" + PrintNat(amount)) else []
       case None => [])
    case HealingApplied(source, target, amount) =>
      (match scene.PlayerPosition(target)
       case Some(at) =>
         if source == 0 then [] else
           (if source != target then Say(source, at, HealOutgoing, "+" + PrintNat(amount)) else [])
           + Say(target, at, HealIncoming, "+" + PrintNat(amount))
       case None => [])
    case StatusApplied(source, target, status, stacks) =>
      (match scene.PlayerPosition(target)
       case Some(at) =>
         if source == 0 || status == "stealth" then [] else
           (if source != target then Say(source, at, StatusStyle(status), StatusText(status, stacks)) else [])
           + Say(target, at, StatusStyle(status), StatusText(status, stacks))
       case None => [])
    case StatusRemoved(target, status, reason) =>
      (match scene.PlayerPosition(target)
       case Some(at) => if status == "stealth" then []
         else Say(target, at, StatusStyle(status), RemovedText(status, reason))
       case None => [])
    case DispelResult(source, target, removedCount) =>
      (match scene.PlayerPosition(target)
       case Some(at) =>
         if source == 0 || removedCount == 0 then [] else
           Say(source, at, Utility, "Dispel x" + PrintNat(removedCount)) + Say(target, at, NegativeStatus, "Dispelled")
       case None => [])
    case DispelCast(source) =>
      (match scene.PlayerPosition(source) case Some(at) => Say(source, at, Utility, "Dispel") case None => [])
    case TriggerResolved(source, kind, target, payload, amount) =>
      (match scene.TargetPosition(kind, target)
       case Some(at) =>
         if source == 0 then [] else
           var heal := payload == "heal";
           var text := (if heal then "Bloom +" else "Bloom -") + PrintNat(amount);
           Say(source, at, if heal then HealOutgoing else Utility, text)
           + if kind.Player? then Say(target, at, if heal then HealIncoming else DamageIncoming, text) else []
       case None => [])
    case ImpactMiss(source) =>
      (match scene.PlayerPosition(source) case Some(at) => Say(source, at, Utility, "Miss") case None => [])
    case CastCanceled(player, reason) =>
      (match scene.PlayerPosition(player) case Some(at) => Say(player, at, Utility, CanceledText(reason))
        case None => [])
    case _ => []
  }

  /** Everything one observation adds to the log. */
  function Effects(scene: Scene, entry: CombatEntry): seq<Event> { Earned(scene, entry) + Said(scene, entry) }

  /** The effects of a heal, all conditions in one place. */
  lemma HealingEffects(scene: Scene, entry: CombatEntry)
    requires entry.HealingApplied?
    ensures entry.source == 0 || scene.PlayerPosition(entry.target).None? ==> Effects(scene, entry) == []
    ensures entry.source != 0 && scene.PlayerPosition(entry.target).Some? ==>
      var at, text := scene.PlayerPosition(entry.target).value, "+" + PrintNat(entry.amount);
      Effects(scene, entry)
      == (if scene.SameTeam(entry.source, entry.target)
          then [Credited(entry.source, HealingToAllies, entry.amount)]
          else [Credited(entry.source, HealingToEnemies, entry.amount)])
         + ((if entry.source != entry.target then Say(entry.source, at, HealOutgoing, text) else [])
            + Say(entry.target, at, HealIncoming, text))
  {
    hide Say, PrintNat, TeamFor;
  }

  /** The effects of a status that was applied, all conditions in one place. */
  lemma StatusEffects(scene: Scene, entry: CombatEntry)
    requires entry.StatusApplied?
    ensures entry.status == "stealth" || entry.source == 0 || scene.PlayerPosition(entry.target).None? ==>
      Effects(scene, entry) == []
    ensures entry.status != "stealth" && entry.source != 0 && scene.PlayerPosition(entry.target).Some? ==>
      var at := scene.PlayerPosition(entry.target).value;
      var (style, text) := (StatusStyle(entry.status), StatusText(entry.status, entry.stacks));
      Effects(scene, entry)
      == (if IsControlStatus(entry.status) && !scene.SameTeam(entry.source, entry.target)
          then [Credited(entry.source, CcHits, 1)] else [])
         + ((if entry.source != entry.target then Say(entry.source, at, style, text) else [])
            + Say(entry.target, at, style, text))
  {
    hide Say, IsControlStatus, IsPositiveStatus, StatusText, TeamFor;
    KindsAreDisjoint(entry.status);
  }

  /** The players an entry names. */
  function Named(entry: CombatEntry): set<u32> {
    match entry
    case CastStarted(player, _) => {player}
    case DamageApplied(source, kind, target, _) => {source} + if kind.Player? then {target} else {}
    case HealingApplied(source, target, _) => {source, target}
    case StatusApplied(source, target, _, _) => {source, target}
    case StatusRemoved(target, _, _) => {target}
    case DispelResult(source, target, _) => {source, target}
    case DispelCast(source) => {source}
    case TriggerResolved(source, kind, target, _, _) => {source} + if kind.Player? then {target} else {}
    case ImpactMiss(source) => {source}
    case CastCanceled(player, _) => {player}
    case OtherEntry => {}
  }

  lemma EarnedByNamed(scene: Scene, entry: CombatEntry, e: Event)
    requires e in Earned(scene, entry)
    ensures e.Credited? && e.player in Named(entry)
    ensures !(entry.StatusApplied? && entry.status == "stealth")
  {
    hide IsControlStatus, IsPositiveStatus, TeamFor;
    if entry.StatusApplied? {
      KindsAreDisjoint(entry.status);
    }
  }

  lemma SaidToNamed(scene: Scene, entry: CombatEntry, e: Event)
    requires e in Said(scene, entry)
    ensures e.TextPushed? && e.recipient in Named(entry) && e.entry.text != []
    ensures !(entry.StatusApplied? && entry.status == "stealth") && !(entry.StatusRemoved? && entry.status == "stealth")
  {
    hide StatusText, RemovedText, CanceledText, StatusStyle;
  }

  /**
   Nobody but the players an entry names hears of it, nothing is ever said empty, no round ends and nothing is
   drained by it, and nobody is told about stealth.
   */
  lemma OnlyTheNamedHear(scene: Scene, entry: CombatEntry, e: Event)
    requires e in Effects(scene, entry)
    ensures e.Credited? || e.TextPushed?
    ensures e.Credited? ==> e.player in Named(entry)
    ensures e.TextPushed? ==> e.recipient in Named(entry) && e.entry.text != []
    ensures !(entry.StatusApplied? && entry.status == "stealth") && !(entry.StatusRemoved? && entry.status == "stealth")
  {
    hide Said, Named;
    if e in Earned(scene, entry) {
      EarnedByNamed(scene, entry, e);
    } else {
      SaidToNamed(scene, entry, e);
    }
  }

  // ----- what an entry is worth to a player

  /** A heal by `player` that reached a player standing somewhere. */
  predicate Heals(scene: Scene, entry: CombatEntry, player: PlayerId) {
    entry.HealingApplied? && entry.source == player && scene.PlayerPosition(entry.target).Some?
  }

  /** How much of one counter an entry gives one player, counter by counter. */
  function Worth(scene: Scene, entry: CombatEntry, player: PlayerId, stat: Stat): nat {
    match stat
    case DamageDone => if entry.DamageApplied? && entry.source == player then entry.amount else 0
    case HealingToAllies =>
      if Heals(scene, entry, player) && scene.SameTeam(player, entry.target) then entry.amount else 0
    case HealingToEnemies =>
      if Heals(scene, entry, player) && !scene.SameTeam(player, entry.target) then entry.amount else 0
    case CcUsed =>
      if entry.CastStarted? && entry.player == player && entry.slot != 0
        && (player, entry.slot) in scene.crowdControlSkills
      then 1 else 0
    case CcHits =>
      if entry.StatusApplied? && entry.source == player && scene.PlayerPosition(entry.target).Some?
         && IsControlStatus(entry.status) && !scene.SameTeam(player, entry.target)
      then 1 else 0
  }

  lemma {:induction false} TotalOfMore(log: seq<Event>, more: seq<Event>, player: PlayerId, stat: Stat)
    ensures MatchTotal(log + more, player, stat) == MatchTotal(log, player, stat) + MatchTotal(more, player, stat)
    decreases |more|
  {
    if more == [] {
      assert log + more == log;
    } else {
      var init := more[..|more| - 1];
      TotalOfMore(log, init, player, stat);
      assert (log + more)[..|log + more| - 1] == log + init;
    }
  }

  lemma {:induction false} TextsCountNothing(texts: seq<Event>, player: PlayerId, stat: Stat)
    requires forall e <- texts :: e.TextPushed?
    ensures MatchTotal(texts, player, stat) == 0
  {
    if texts != [] {
      var last := texts[|texts| - 1];
      assert last in texts;
      assert forall e <- texts[..|texts| - 1] :: e in texts;
      TextsCountNothing(texts[..|texts| - 1], player, stat);
    }
  }

  lemma EarnedIsWorth(scene: Scene, entry: CombatEntry, player: PlayerId, stat: Stat)
    ensures MatchTotal(Earned(scene, entry), player, stat) == Worth(scene, entry, player, stat)
  {
    hide IsControlStatus, TeamFor, Earned;
    assert |Earned(scene, entry)| <= 1
      && forall e <- Earned(scene, entry) :: e.Credited? by { EarnsOnce(scene, entry); }
    var earned := Earned(scene, entry);
    EarnedFor(scene, entry, player, stat);
    if earned != [] {
      assert earned[..0] == [];
    }
  }

  lemma EarnsOnce(scene: Scene, entry: CombatEntry)
    ensures |Earned(scene, entry)| <= 1 && forall e <- Earned(scene, entry) :: e.Credited?
  {
    hide IsControlStatus, TeamFor;
  }

  lemma EarnedFor(scene: Scene, entry: CombatEntry, player: PlayerId, stat: Stat)
    ensures Worth(scene, entry, player, stat) == if Earned(scene, entry) == [] then 0
      else EarnedBy(Earned(scene, entry)[0], player, stat)
  {
    hide IsControlStatus, TeamFor;
  }

  /** One observation raises every counter of every player by exactly what the entry is worth to them. */
  lemma CreditsAreWorth(scene: Scene, entry: CombatEntry, log: seq<Event>, player: PlayerId, stat: Stat)
    ensures MatchTotal(log + Effects(scene, entry), player, stat)
         == MatchTotal(log, player, stat) + Worth(scene, entry, player, stat)
  {
    hide Earned, Said, Worth;
    TotalOfMore(log, Effects(scene, entry), player, stat);
    TotalOfMore(Earned(scene, entry), Said(scene, entry), player, stat);
    forall e | e in Said(scene, entry) ensures e.TextPushed? { SaidToNamed(scene, entry, e); }
    TextsCountNothing(Said(scene, entry), player, stat);
    EarnedIsWorth(scene, entry, player, stat);
  }

  lemma {:induction false} PushedToMore(log: seq<Event>, more: seq<Event>, p: PlayerId)
    ensures PushedTo(log + more, p) == PushedTo(log, p) + PushedTo(more, p)
    decreases |more|
  {
    if more == [] {
      assert log + more == log;
    } else {
      var init := more[..|more| - 1];
      PushedToMore(log, init, p);
      assert (log + more)[..|log + more| - 1] == log + init;
    }
  }

  lemma SayReaches(recipient: PlayerId, at: Position, style: TextStyle, text: string, p: PlayerId)
    ensures PushedTo(Say(recipient, at, style, text), p)
         == if p == recipient && text != [] then [TextEntry(at.0, at.1, style, text)] else []
  {
    var said := Say(recipient, at, style, text);
    if text != [] {
      assert said[..0] == [];
    }
  }

  lemma CreditsSayNothing(scene: Scene, entry: CombatEntry, p: PlayerId)
    ensures PushedTo(Earned(scene, entry), p) == []
  {
    hide Earned;
    EarnsOnce(scene, entry);
    var earned := Earned(scene, entry);
    if earned != [] {
      assert earned[0] in earned && earned[..|earned| - 1] == [];
    }
  }

  /** A heal is told once to each of the two players, and only once to someone healing themselves. */
  lemma HealingIsToldOnce(scene: Scene, entry: CombatEntry, p: PlayerId)
    requires entry.HealingApplied? && entry.source != 0 && scene.PlayerPosition(entry.target).Some?
    ensures |PushedTo(Effects(scene, entry), p)| == if p == entry.source || p == entry.target then 1 else 0
  {
    hide PushedTo, Say, PrintNat, Earned;
    var at := scene.PlayerPosition(entry.target).value;
    var text := "+" + PrintNat(entry.amount);
    PushedToMore(Earned(scene, entry), Said(scene, entry), p);
    CreditsSayNothing(scene, entry, p);
    SayReaches(entry.source, at, HealOutgoing, text, p);
    SayReaches(entry.target, at, HealIncoming, text, p);
    if entry.source == entry.target {
      assert Said(scene, entry) == Say(entry.target, at, HealIncoming, text);
    } else {
      PushedToMore(Say(entry.source, at, HealOutgoing, text), Say(entry.target, at, HealIncoming, text), p);
    }
  }
}
