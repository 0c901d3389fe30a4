/** The registry of one-time session bootstrap tokens. */
module TokenRegistry {
  import opened Prelude
  import opened Text

  const MAX_SESSION_BOOTSTRAP_TOKENS: nat := 4096
  const MAX_SESSION_BOOTSTRAP_TOKEN_BYTES: nat := 96

  type Instant = nat

  predicate IsTokenChar(c: char) {
    'a' <= c <= 'z' || 'A' <= c <= 'Z' || '0' <= c <= '9' || c == '-' || c == '_'
  }

  /** `is_valid_session_bootstrap_token_shape`. */
  predicate WellShaped(token: string) {
    0 < |token| <= MAX_SESSION_BOOTSTRAP_TOKEN_BYTES && forall c <- token :: IsTokenChar(c)
  }

  datatype TokenError = RegistryFull | RandomFailed | BadShape | MissingOrConsumed | Expired

  /** What happened to tokens so far. */
  datatype TokenEvent = Minted(token: string, at: Instant) | Consumed(token: string, at: Instant)

  /** A token is 1 to 96 ASCII letters, digits, underscores or hyphens. */
  lemma ShapeMeans(token: string)
    ensures WellShaped(token) <==> 1 <= |token| <= 96 && forall c <- token :: HasWordCode(c)
  {
    hide HasWordCode, IsTokenChar;
    forall c: char ensures IsTokenChar(c) <==> HasWordCode(c) {
      TokenCharsByCode(c);
    }
  }

  lemma TokenCharsByCode(c: char)
    ensures IsTokenChar(c) <==> HasWordCode(c)
  {
  }

  function After(outstanding: map<string, Instant>, e: TokenEvent): map<string, Instant> {
    match e
    case Minted(token, at) => outstanding[token := at]
    case Consumed(token, _) => outstanding - {token}
  }

  /** Tokens minted and not consumed since, with the time of their latest mint. */
  function Outstanding(history: seq<TokenEvent>): map<string, Instant> {
    if history == [] then map[] else After(Outstanding(history[..|history| - 1]), history[|history| - 1])
  }

  function Mints(history: seq<TokenEvent>, token: string): nat {
    if history == [] then 0 else
      var last := history[|history| - 1];
      Mints(history[..|history| - 1], token) + if last.Minted? && last.token == token then 1 else 0
  }

  function Consumes(history: seq<TokenEvent>, token: string): nat {
    if history == [] then 0 else
      var last := history[|history| - 1];
      Consumes(history[..|history| - 1], token) + if last.Consumed? && last.token == token then 1 else 0
  }

  /** The outstanding tokens that still live at `now`. */
  function Alive(history: seq<TokenEvent>, ttl: nat, now: Instant): set<string> {
    var outstanding := Outstanding(history);
    set t | t in outstanding && now <= outstanding[t] + ttl
  }

  /** Every consume is of a token alive at that time. */
  ghost predicate Lawful(history: seq<TokenEvent>, ttl: nat) {
    forall i :: 0 <= i < |history| && history[i].Consumed? ==>
      history[i].token in Alive(history[..i], ttl, history[i].at)
  }

  lemma OneMoreEvent(history: seq<TokenEvent>, e: TokenEvent)
    ensures Outstanding(history + [e]) == After(Outstanding(history), e)
  {
    assert (history + [e])[..|history|] == history;
  }

  lemma StaysLawful(history: seq<TokenEvent>, ttl: nat, e: TokenEvent)
    requires Lawful(history, ttl) && (e.Consumed? ==> e.token in Alive(history, ttl, e.at))
    ensures Lawful(history + [e], ttl)
  {
    hide Alive;
    forall i | 0 <= i < |history| + 1 ensures (history + [e])[..i] == history[..i] {
    }
    assert history[..|history|] == history;
  }

  /** Over every run, a token has been consumed at most as often as minted, and less often while it is outstanding. */
  lemma {:induction false} ConsumesNeverExceedMints(history: seq<TokenEvent>, ttl: nat, token: string)
    requires Lawful(history, ttl)
    ensures Consumes(history, token) + (if token in Outstanding(history) then 1 else 0) <= Mints(history, token)
  {
    if history != [] {
      var before := history[..|history| - 1];
      forall i | 0 <= i < |before| ensures before[..i] == history[..i] {
      }
      ConsumesNeverExceedMints(before, ttl, token);
    }
  }

  /** An outstanding token was minted at the time it is known by. */
  lemma {:induction false} OutstandingWasMinted(history: seq<TokenEvent>, token: string)
    requires token in Outstanding(history)
    ensures Minted(token, Outstanding(history)[token]) in history
  {
    var before, last := history[..|history| - 1], history[|history| - 1];
    if last != Minted(token, Outstanding(history)[token]) {
      OutstandingWasMinted(before, token);
    }
  }

  /** Once the lifetimes of all mints have passed nothing is alive, so a full registry can mint again. */
  lemma RoomReturns(history: seq<TokenEvent>, ttl: nat, now: Instant)
    requires forall e <- history :: e.Minted? ==> e.at + ttl < now
    ensures Alive(history, ttl, now) == {}
  {
    hide Outstanding;
    forall t | t in Outstanding(history) ensures Outstanding(history)[t] + ttl < now {
      OutstandingWasMinted(history, t);
    }
  }

  /** A consumed token stays unusable until it is minted again. */
  lemma {:induction false} ConsumedStaysConsumed(history: seq<TokenEvent>, token: string, later: seq<TokenEvent>,
                                                 at: Instant)
    requires forall e <- later :: e.Minted? ==> e.token != token
    ensures token !in Outstanding(history + [Consumed(token, at)] + later)
    decreases |later|
  {
    var all := history + [Consumed(token, at)] + later;
    if later == [] {
      OneMoreEvent(history, Consumed(token, at));
      assert all == history + [Consumed(token, at)];
    } else {
      var before := later[..|later| - 1];
      ConsumedStaysConsumed(history, token, before, at);
      assert all[..|all| - 1] == history + [Consumed(token, at)] + before;
      assert later[|later| - 1] in later;
    }
  }

  /** The issued map is the outstanding tokens with their expiry, less some that have expired. */
  ghost predicate Registers(issued: map<string, Instant>, outstanding: map<string, Instant>, ttl: nat, latest: Instant)
  {
    && |issued| <= MAX_SESSION_BOOTSTRAP_TOKENS
    && (forall t <- issued :: t in outstanding && issued[t] == outstanding[t] + ttl && WellShaped(t))
    && (forall t <- outstanding :: t in issued || outstanding[t] + ttl < latest)
  }

  lemma RegisterMint(issued: map<string, Instant>, outstanding: map<string, Instant>, ttl: nat, now: Instant,
                     token: string)
    requires Registers(issued, outstanding, ttl, now) && |issued| < MAX_SESSION_BOOTSTRAP_TOKENS && WellShaped(token)
    ensures Registers(issued[token := now + ttl], outstanding[token := now], ttl, now)
  {
    hide WellShaped;
    OneMore(issued, token, now + ttl);
  }

  lemma RegisterConsume(issued: map<string, Instant>, outstanding: map<string, Instant>, ttl: nat, now: Instant,
                        token: string)
    requires Registers(issued, outstanding, ttl, now) && token in issued
    ensures Registers(issued - {token}, outstanding - {token}, ttl, now)
  {
    hide WellShaped;
    var left := issued - {token};
    KeysShrink(left.Keys, issued.Keys);
    assert |left| == |left.Keys| && |issued| == |issued.Keys|;
  }

  class SessionBootstrapTokenRegistry {
    var issued: map<string, Instant>
    const ttl: nat
    /** Every mint and consume that succeeded, and the latest time seen. */
    ghost var history: seq<TokenEvent>
    ghost var latest: Instant

    ghost predicate Valid()
      reads this
    {
      Registers(issued, Outstanding(history), ttl, latest) && Lawful(history, ttl)
    }

    constructor (ttl: nat)
      ensures Valid() && this.ttl == ttl && latest == 0 && issued == map[] && history == []
    {
      issued := map[];
      this.ttl := ttl;
      history, latest := [], 0;
    }

    /** `retain`: what has not expired stays. */
    method PruneExpired(now: Instant)
      requires Valid() && latest <= now
      modifies `issued, `latest
      ensures Valid() && latest == now
      ensures issued.Keys == Alive(history, ttl, now)
    {
      hide Lawful, Outstanding, WellShaped;
      issued := map t | t in issued && issued[t] >= now :: issued[t];
      latest := now;
      KeysShrink(issued.Keys, old(issued).Keys);
      assert |issued| == |issued.Keys| && |old(issued)| == |old(issued).Keys|;
    }

    /** A token is minted exactly when the random source delivers and fewer than the maximum are alive. */
    method Mint(now: Instant, random: Option<string>) returns (r: Result<string, TokenError>)
      requires Valid() && latest <= now && (random.Some? ==> WellShaped(random.value))
      modifies this
      ensures Valid() && latest == now
      ensures |Alive(old(history), ttl, now)| <= MAX_SESSION_BOOTSTRAP_TOKENS
      ensures r == if |Alive(old(history), ttl, now)| == MAX_SESSION_BOOTSTRAP_TOKENS then Err(RegistryFull)
                   else if random.None? then Err(RandomFailed) else Ok(random.value)
      ensures history == if r.Ok? then old(history) + [Minted(r.value, now)] else old(history)
    {
      hide Registers, Lawful, Alive, Outstanding, WellShaped;
      PruneExpired(now);
      PrunedIsBounded(issued, Alive(history, ttl, now), Outstanding(history), ttl, now);
      if |issued| >= MAX_SESSION_BOOTSTRAP_TOKENS {
        return Err(RegistryFull);
      }
      if random.None? {
        return Err(RandomFailed);
      }
      var token := random.value;
      RegisterMint(issued, Outstanding(history), ttl, now, token);
      OneMoreEvent(history, Minted(token, now));
      StaysLawful(history, ttl, Minted(token, now));
      issued := issued[token := now + ttl];
      history := history + [Minted(token, now)];
      r := Ok(token);
    }

    /** A token is consumed exactly when its latest mint is unexpired and has not been consumed since. */
    method Consume(token: string, now: Instant) returns (r: Result<bool, TokenError>)
      requires Valid() && latest <= now
      modifies this
      ensures Valid() && latest == now
      ensures r.Ok? <==> WellShaped(token) && token in Alive(old(history), ttl, now)
      ensures r.Err? ==> r.error == if WellShaped(token) then MissingOrConsumed else BadShape
      ensures history == if r.Ok? then old(history) + [Consumed(token, now)] else old(history)
    {
      hide Registers, Lawful, Alive, Outstanding, WellShaped;
      PruneExpired(now);
      if !WellShaped(token) {
        return Err(BadShape);
      }
      if token !in issued {
        return Err(MissingOrConsumed);
      }
      IssuedIsUnexpired(issued, history, ttl, now, token);
      var expiresAt := issued[token];
      RegisterConsume(issued, Outstanding(history), ttl, now, token);
      issued := issued - {token};
      if now > expiresAt {
        assert false;
      }
      OneMoreEvent(history, Consumed(token, now));
      StaysLawful(history, ttl, Consumed(token, now));
      history := history + [Consumed(token, now)];
      r := Ok(true);
    }
  }

  lemma KeysShrink(a: set<string>, b: set<string>)
    requires a <= b
    ensures |a| <= |b|
  {
    assert b == a + (b - a);
  }

  lemma PrunedIsBounded(issued: map<string, Instant>, alive: set<string>, outstanding: map<string, Instant>, ttl: nat,
                        now: Instant)
    requires Registers(issued, outstanding, ttl, now) && issued.Keys == alive
    ensures |alive| == |issued| <= MAX_SESSION_BOOTSTRAP_TOKENS
  {
    assert |issued| == |issued.Keys|;
  }

  /** After pruning, no issued token has expired. */
  lemma IssuedIsUnexpired(issued: map<string, Instant>, history: seq<TokenEvent>, ttl: nat, now: Instant, token: string)
    requires Registers(issued, Outstanding(history), ttl, now) && issued.Keys == Alive(history, ttl, now)
      && token in issued
    ensures now <= issued[token]
  {
    hide Outstanding, WellShaped;
    assert token in issued.Keys;
  }

  lemma OneMore(m: map<string, Instant>, token: string, at: Instant)
    ensures |m[token := at]| <= |m| + 1
  {
    assert m[token := at].Keys == m.Keys + {token};
    assert |m[token := at]| == |m[token := at].Keys|;
  }
}
