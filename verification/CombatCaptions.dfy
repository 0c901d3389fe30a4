/** Who plays on whose side, and what the captions above the players' heads say. */
module CombatCaptions {
  import opened CombatEvents
  import opened CombatScene
  import opened Prelude
  import opened Text

  // ----- teams

  /** The `i`-th assignment is the first of this player. */
  ghost predicate FirstAssignment(roster: seq<TeamAssignment>, i: int, player: PlayerId) {
    && 0 <= i < |roster| && roster[i].playerId == player
    && forall j :: 0 <= j < i ==> roster[j].playerId != player
  }

  lemma {:induction false} TeamIsFirstAssignment(roster: seq<TeamAssignment>, player: PlayerId) returns (i: int)
    ensures var team := TeamFor(roster, player);
            if team.None? then forall j :: 0 <= j < |roster| ==> roster[j].playerId != player
            else FirstAssignment(roster, i, player) && team == Some(roster[i].team)
  {
    i := 0;
    if roster != [] && roster[0].playerId != player {
      var j := TeamIsFirstAssignment(roster[1..], player);
      i := j + 1;
      assert forall k :: 0 < k < |roster| ==> roster[k] == roster[1..][k - 1];
    }
  }

  /** Two players are on one team when both are on the roster and their first assignments name the same side. */
  lemma SameTeamMeans(scene: Scene, left: PlayerId, right: PlayerId)
    ensures scene.SameTeam(left, right)
       <==> exists i, j :: FirstAssignment(scene.roster, i, left) && FirstAssignment(scene.roster, j, right)
                           && scene.roster[i].team == scene.roster[j].team
  {
    hide TeamFor;
    var i := TeamIsFirstAssignment(scene.roster, left);
    var j := TeamIsFirstAssignment(scene.roster, right);
    forall k | FirstAssignment(scene.roster, k, left) ensures TeamFor(scene.roster, left).Some? && k == i {
    }
    forall k | FirstAssignment(scene.roster, k, right) ensures TeamFor(scene.roster, right).Some? && k == j {
    }
  }

  /** Texts appear where the world has the target: a player under a nonzero id, or a deployable. */
  lemma TargetsStand(scene: Scene, kind: TargetKind, id: u32, at: Position)
    ensures scene.TargetPosition(kind, id) == Some(at)
       <==> if kind == Player then id != 0 && id in scene.positions && scene.positions[id] == at
            else id in scene.deployables && scene.deployables[id] == at
    ensures scene.PlayerPosition(id) == scene.TargetPosition(Player, id)
  {
    match kind { case Player => case Deployable => }
  }

  // ----- captions

  /** A name as the status kinds have it: it starts with a small letter and holds no blank. */
  predicate StatusName(s: string) { s != [] && 'a' <= s[0] <= 'z' && ' ' !in s }

  /** A caption shows the name with a capital first letter. */
  lemma TitleIsCapitalized(s: string)
    requires StatusName(s)
    ensures var t := TitleCase(s);
            && |t| == |s| && t[1..] == s[1..] && 'A' <= t[0] <= 'Z' && t[0] as int + 32 == s[0] as int
            && ' ' !in t
  {
    assert forall c <- s[1..] :: c in s;
  }

  lemma TitlesDiffer(a: string, b: string)
    requires StatusName(a) && StatusName(b) && TitleCase(a) == TitleCase(b)
    ensures a == b
  {
    TitleIsCapitalized(a);
    TitleIsCapitalized(b);
    assert a == [a[0]] + a[1..] && b == [b[0]] + b[1..];
  }

  lemma StackedText(s: string, stacks: u8)
    requires StatusName(s) && stacks > 1
    ensures ' ' in StatusText(s, stacks)
    ensures IndexOf(StatusText(s, stacks), ' ') == |TitleCase(s)| < |StatusText(s, stacks)|
    ensures StatusText(s, stacks)[..|TitleCase(s)|] == TitleCase(s)
    ensures StatusText(s, stacks)[|TitleCase(s)| + 2..] == PrintNat(stacks)
  {
    hide TitleCase, PrintNat;
    TitleIsCapitalized(s);
    var t := TitleCase(s);
    var text := StatusText(s, stacks);
    assert text == t + [' '] + ("x" + PrintNat(stacks));
    CutAtFirst(t, ' ', "x" + PrintNat(stacks));
    assert text[|t|] == ' ';
    assert text[|t| + 2..] == PrintNat(stacks);
  }

  lemma SingleText(s: string, stacks: u8)
    requires StatusName(s) && stacks <= 1
    ensures StatusText(s, stacks) == TitleCase(s) && ' ' !in StatusText(s, stacks)
  {
    TitleIsCapitalized(s);
  }

  /** The caption of an applied status tells which status it is and, above one, how many times it is stacked. */
  lemma StatusTextTells(a: string, m: u8, b: string, n: u8)
    requires StatusName(a) && StatusName(b)
    ensures StatusText(a, m) == StatusText(b, n) <==> a == b && (m == n || (m <= 1 && n <= 1))
  {
    hide StatusText, TitleCase;
    if m > 1 {
      StackedText(a, m);
    } else {
      SingleText(a, m);
    }
    if n > 1 {
      StackedText(b, n);
    } else {
      SingleText(b, n);
    }
    if StatusText(a, m) == StatusText(b, n) {
      if m > 1 && n > 1 {
        TitlesDiffer(a, b);
        PrintedValue(m);
        PrintedValue(n);
      } else if m <= 1 && n <= 1 {
        TitlesDiffer(a, b);
      }
    }
  }

  /** Which statuses are shown as good for the player and which as bad, and which of them count as crowd control. */
  lemma StatusKinds()
    ensures forall status <- ["hot", "haste", "shield", "stealth"] ::
              StatusStyle(status) == PositiveStatus && !IsControlStatus(status)
    ensures forall status <- ["chill", "root", "silence", "stun", "sleep", "fear"] ::
              StatusStyle(status) == NegativeStatus && IsControlStatus(status)
    ensures forall status <- ["poison", "reveal", "healing_reduction"] ::
              StatusStyle(status) == NegativeStatus && !IsControlStatus(status)
  {
  }

  /** How the captions end that tell why a status went, two of them without naming it. */
  lemma RemovalTells(s: string, reason: RemovedReason)
    ensures var endings := map[Expired := " faded", Dispelled := " dispelled", DamageBroken := " broken"];
            reason in endings ==> RemovedText(s, reason) == TitleCase(s) + endings[reason]
    ensures reason == RemovedReason.Defeat ==> RemovedText(s, reason) == "Cleared on defeat"
    ensures reason == ShieldConsumed ==> RemovedText(s, reason) == "Shield spent"
  {
    hide TitleCase;
  }

  /** What a player reads about their own canceled cast. */
  lemma CancelTells()
    ensures CanceledText(Manual) == "Canceled" && CanceledText(Movement) == "Cast canceled"
    ensures CanceledText(ControlLoss) == "Control lost" && CanceledText(Interrupt) == "Interrupted"
    ensures CanceledText(CancelReason.Defeat) == "Defeated"
  {
  }
}
