/** The session-bootstrap rate limiter: a pruned deque per address that decides like the full history would. */
module RateLimiter {
  import opened Prelude

  /** Points in time and durations, in nanoseconds. */
  type Instant = nat

  const ONE_SECOND: nat := 1_000_000_000

  type Ip = string

  /** The requests an address had accepted, oldest first. */
  function TimesOf(m: map<Ip, seq<Instant>>, ip: Ip): seq<Instant> { if ip in m then m[ip] else [] }

  ghost predicate Ascending(ts: seq<Instant>) { forall i, j :: 0 <= i < j < |ts| ==> ts[i] <= ts[j] }

  /** How many of these requests are still inside the window at `now`. */
  function CountLive(ts: seq<Instant>, window: nat, now: Instant): nat {
    if ts == [] then 0 else (if ts[0] + window > now then 1 else 0) + CountLive(ts[1..], window, now)
  }

  /** The ideal decision, over everything ever accepted from the address. */
  predicate Allows(history: seq<Instant>, window: nat, maxRequests: nat, now: Instant) {
    CountLive(history, window, now) < maxRequests
  }

  /** What is left once expired requests are popped off the front. */
  function Unexpired(ts: seq<Instant>, window: nat, now: Instant): (rest: seq<Instant>)
    ensures |rest| <= |ts| && rest == ts[|ts| - |rest|..]
  {
    if ts != [] && ts[0] + window <= now then Unexpired(ts[1..], window, now) else ts
  }

  /** `kept` is what an earlier pruning, no later than `now`, left of `history`. */
  ghost predicate PrunedFrom(history: seq<Instant>, kept: seq<Instant>, window: nat, now: Instant) {
    && |kept| <= |history| && kept == history[|history| - |kept|..]
    && forall i :: 0 <= i < |history| - |kept| ==> history[i] + window <= now
  }

  lemma {:induction false} PruneAgain(history: seq<Instant>, kept: seq<Instant>, window: nat, now: Instant)
    requires PrunedFrom(history, kept, window, now)
    ensures PrunedFrom(history, Unexpired(kept, window, now), window, now)
    decreases |kept|
  {
    if kept != [] && kept[0] + window <= now {
      assert kept[0] == history[|history| - |kept|];
      PruneAgain(history, kept[1..], window, now);
    }
  }

  /** On an ascending history the pruned deque holds exactly the live requests. */
  lemma {:induction false} DequeCountsLive(history: seq<Instant>, kept: seq<Instant>, window: nat, now: Instant)
    requires Ascending(history) && PrunedFrom(history, kept, window, now)
    requires kept != [] ==> kept[0] + window > now
    ensures CountLive(history, window, now) == |kept|
    decreases |history|
  {
    if history != [] {
      assert Ascending(history[1..]);
      if |kept| == |history| {
        assert kept == history;
        if |history| > 1 {
          assert history[0] <= history[1];
        }
        DequeCountsLive(history[1..], history[1..], window, now);
      } else {
        assert history[0] + window <= now;
        DequeCountsLive(history[1..], kept, window, now);
      }
    }
  }

  lemma {:induction false} UnexpiredFront(ts: seq<Instant>, window: nat, now: Instant)
    ensures var rest := Unexpired(ts, window, now); rest != [] ==> rest[0] + window > now
  {
    if ts != [] && ts[0] + window <= now {
      UnexpiredFront(ts[1..], window, now);
    }
  }

  /** The accepted times keep the rate: `maxRequests` later is at least a window later. */
  ghost predicate KeepsRate(history: seq<Instant>, window: nat, maxRequests: nat) {
    forall i :: 0 <= i && i + maxRequests < |history| ==> history[i] + window <= history[i + maxRequests]
  }

  /** If the request `maxRequests` ago is live, so are all since, and the ideal limiter refuses. */
  lemma {:induction false} RecentAreLive(history: seq<Instant>, i: nat, window: nat, now: Instant)
    requires Ascending(history) && i < |history| && history[i] + window > now
    ensures CountLive(history, window, now) >= |history| - i
    decreases |history|
  {
    assert Ascending(history[1..]);
    if i > 0 {
      RecentAreLive(history[1..], i - 1, window, now);
    } else if |history| > 1 {
      assert history[0] <= history[1];
      RecentAreLive(history[1..], 0, window, now);
    }
  }

  lemma AcceptingKeepsRate(history: seq<Instant>, window: nat, maxRequests: nat, now: Instant)
    requires Ascending(history) && (forall t <- history :: t <= now)
    requires KeepsRate(history, window, maxRequests) && Allows(history, window, maxRequests, now)
    ensures Ascending(history + [now]) && KeepsRate(history + [now], window, maxRequests)
  {
    hide CountLive;
    var i := |history| - maxRequests;
    if i >= 0 && i < |history| && history[i] + window > now {
      RecentAreLive(history, i, window, now);
    }
    assert forall k :: 0 <= k < |history| ==> history[k] in history;
  }

  // ----- the retry time

  /** The oldest request still inside the window, if any. */
  function OldestLive(history: seq<Instant>, window: nat, now: Instant): (t: Option<Instant>)
    ensures t.Some? ==> t.value + window > now
  {
    if history == [] then None
    else if history[0] + window > now then Some(history[0]) else OldestLive(history[1..], window, now)
  }

  /** Until the oldest live request leaves the window, and never under a second. */
  function RetryAfter(history: seq<Instant>, window: nat, now: Instant): nat {
    var wait := match OldestLive(history, window, now) case None => window case Some(t) => t + window - now;
    Max(wait, ONE_SECOND)
  }

  lemma {:induction false} OldestIsFront(history: seq<Instant>, kept: seq<Instant>, window: nat, now: Instant)
    requires PrunedFrom(history, kept, window, now) && (kept != [] ==> kept[0] + window > now)
    ensures OldestLive(history, window, now) == if kept == [] then None else Some(kept[0])
    decreases |history|
  {
    if |kept| == |history| {
      assert kept == history;
    } else {
      assert history[0] + window <= now;
      OldestIsFront(history[1..], kept, window, now);
    }
  }

  /** Only an expired front is popped. */
  lemma PopsExpiredFront(ts: seq<Instant>, window: nat, now: Instant)
    requires ts != []
    ensures |Unexpired(ts, window, now)| < |ts| <==> ts[0] + window <= now
  {
  }

  lemma NothingPruned(history: seq<Instant>, window: nat, now: Instant)
    ensures PrunedFrom(history, history, window, now) && Unexpired([], window, now) == []
  {
  }

  /** Pruning later prunes at least as much. */
  lemma {:induction false} PruneTwice(ts: seq<Instant>, window: nat, now: Instant, later: Instant)
    requires now <= later
    ensures Unexpired(Unexpired(ts, window, now), window, later) == Unexpired(ts, window, later)
  {
    if ts != [] && ts[0] + window <= now {
      PruneTwice(ts[1..], window, now, later);
    }
  }

  /** What a deque pruned at `now` says about the history behind it. */
  lemma DequeDecides(history: seq<Instant>, deque: seq<Instant>, window: nat, before: Instant, now: Instant)
    requires before <= now && Ascending(history) && PrunedFrom(history, deque, window, before)
    ensures var kept := Unexpired(deque, window, now);
            && PrunedFrom(history, kept, window, now)
            && CountLive(history, window, now) == |kept|
            && OldestLive(history, window, now) == if kept == [] then None else Some(kept[0])
  {
    var kept := Unexpired(deque, window, now);
    PruneAgain(history, deque, window, now);
    UnexpiredFront(deque, window, now);
    DequeCountsLive(history, kept, window, now);
    OldestIsFront(history, kept, window, now);
  }

  /** A history that keeps the rate never has more than `maxRequests` live requests. */
  lemma LiveIsBounded(history: seq<Instant>, window: nat, maxRequests: nat, now: Instant)
    requires Ascending(history) && (forall t <- history :: t <= now) && KeepsRate(history, window, maxRequests)
    requires maxRequests > 0
    ensures |Unexpired(history, window, now)| <= maxRequests
  {
    var live := Unexpired(history, window, now);
    UnexpiredFront(history, window, now);
    forall i | 0 <= i && i + maxRequests < |history| ensures history[i] + window <= now {
      assert history[i + maxRequests] in history;
    }
    assert live != [] ==> history[|history| - |live|] + window > now;
  }

  /**
   A refused client that waits, with nothing accepted from its address meanwhile, is accepted exactly
   once the oldest live request has left the window; the returned retry time is long enough.
   */
  lemma RetryIsExact(history: seq<Instant>, window: nat, maxRequests: nat, now: Instant, later: Instant)
    requires Ascending(history) && (forall t <- history :: t <= now) && KeepsRate(history, window, maxRequests)
    requires maxRequests > 0 && !Allows(history, window, maxRequests, now) && now <= later
    ensures OldestLive(history, window, now).Some?
    ensures Allows(history, window, maxRequests, later) <==> OldestLive(history, window, now).value + window <= later
    ensures now + RetryAfter(history, window, now) <= later ==> Allows(history, window, maxRequests, later)
  {
    hide Unexpired, CountLive, OldestLive, Ascending, KeepsRate;
    LiveIsBounded(history, window, maxRequests, now);
    LiveDropsWithOldest(history, window, now, later);
  }

  /** The number of live requests drops exactly when the oldest of them expires. */
  lemma LiveDropsWithOldest(history: seq<Instant>, window: nat, now: Instant, later: Instant)
    requires Ascending(history) && now <= later
    ensures CountLive(history, window, now) == |Unexpired(history, window, now)|
    ensures CountLive(history, window, now) > 0 ==> OldestLive(history, window, now).Some?
    ensures CountLive(history, window, now) > 0 ==>
      (CountLive(history, window, later) < CountLive(history, window, now)
       <==> OldestLive(history, window, now).value + window <= later)
    ensures CountLive(history, window, later) <= CountLive(history, window, now)
  {
    hide Unexpired, CountLive, OldestLive, PrunedFrom, Ascending;
    var live := Unexpired(history, window, now);
    NothingPruned(history, window, now);
    DequeDecides(history, history, window, now, now);
    DequeDecides(history, history, window, now, later);
    PruneTwice(history, window, now, later);
    if live != [] {
      PopsExpiredFront(live, window, later);
    }
  }

  // ----- whole runs of the ideal limiter

  datatype Request = Request(ip: Ip, at: Instant)

  /** The history after one more request, which the ideal limiter admits or not. */
  function Admit(history: map<Ip, seq<Instant>>, ip: Ip, now: Instant, window: nat, maxRequests: nat)
    : map<Ip, seq<Instant>>
  {
    if Allows(TimesOf(history, ip), window, maxRequests, now) then history[ip := TimesOf(history, ip) + [now]]
      else history
  }

  function AfterRequests(rs: seq<Request>, window: nat, maxRequests: nat): map<Ip, seq<Instant>> {
    if rs == [] then map[] else
      var last := rs[|rs| - 1];
      Admit(AfterRequests(rs[..|rs| - 1], window, maxRequests), last.ip, last.at, window, maxRequests)
  }

  lemma OneMoreRequest(rs: seq<Request>, x: Request, window: nat, maxRequests: nat)
    ensures AfterRequests(rs + [x], window, maxRequests)
         == Admit(AfterRequests(rs, window, maxRequests), x.ip, x.at, window, maxRequests)
  {
    assert (rs + [x])[..|rs|] == rs;
  }

  function OnlyFrom(rs: seq<Request>, ip: Ip): seq<Request> {
    if rs == [] then [] else
      OnlyFrom(rs[..|rs| - 1], ip) + if rs[|rs| - 1].ip == ip then [rs[|rs| - 1]] else []
  }

  lemma AdmitTouchesOne(history: map<Ip, seq<Instant>>, ip: Ip, now: Instant, window: nat, maxRequests: nat, other: Ip)
    ensures TimesOf(Admit(history, ip, now, window, maxRequests), other)
         == TimesOf(history, other) +
            if other == ip && Allows(TimesOf(history, ip), window, maxRequests, now) then [now] else []
  {
    assert TimesOf(history, other) + [] == TimesOf(history, other);
  }

  /** What other addresses send never matters: dropping it leaves an address's history as it was. */
  lemma {:induction false} OnlyOwnRequestsMatter(rs: seq<Request>, ip: Ip, window: nat, maxRequests: nat)
    ensures TimesOf(AfterRequests(rs, window, maxRequests), ip)
         == TimesOf(AfterRequests(OnlyFrom(rs, ip), window, maxRequests), ip)
  {
    hide Allows;
    if rs != [] {
      var before, last := rs[..|rs| - 1], rs[|rs| - 1];
      OnlyOwnRequestsMatter(before, ip, window, maxRequests);
      AdmitTouchesOne(AfterRequests(before, window, maxRequests), last.ip, last.at, window, maxRequests, ip);
      if last.ip == ip {
        var own := OnlyFrom(before, ip);
        assert OnlyFrom(rs, ip) == own + [last] && (own + [last])[..|own|] == own;
        AdmitTouchesOne(AfterRequests(own, window, maxRequests), last.ip, last.at, window, maxRequests, ip);
      } else {
        assert OnlyFrom(rs, ip) == OnlyFrom(before, ip);
      }
    }
  }

  ghost predicate Clocked(rs: seq<Request>) { forall i, j :: 0 <= i < j < |rs| ==> rs[i].at <= rs[j].at }

  /** Over every run with a non-decreasing clock, no address is admitted faster than the rate. */
  lemma {:induction false} EveryRunKeepsRate(rs: seq<Request>, ip: Ip, window: nat, maxRequests: nat)
    requires Clocked(rs)
    ensures var history := TimesOf(AfterRequests(rs, window, maxRequests), ip);
            && Ascending(history) && KeepsRate(history, window, maxRequests)
            && (forall t <- history :: rs != [] && t <= rs[|rs| - 1].at)
  {
    hide Allows, KeepsRate, Ascending;
    if rs == [] {
      NothingKeepsRate(window, maxRequests);
    } else {
      var before, last := rs[..|rs| - 1], rs[|rs| - 1];
      EveryRunKeepsRate(before, ip, window, maxRequests);
      var history := TimesOf(AfterRequests(before, window, maxRequests), ip);
      assert before != [] ==> before[|before| - 1].at <= last.at;
      if last.ip == ip && Allows(history, window, maxRequests, last.at) {
        AcceptingKeepsRate(history, window, maxRequests, last.at);
      }
    }
  }

  lemma NothingKeepsRate(window: nat, maxRequests: nat)
    ensures Ascending([]) && KeepsRate([], window, maxRequests)
  {
  }

  // ----- the limiter

  /** A deque is a pruning of its address's history, which is ascending and keeps the rate. */
  ghost predicate Faithful(history: seq<Instant>, deque: seq<Instant>, window: nat, maxRequests: nat, latest: Instant) {
    && Ascending(history) && (forall t <- history :: t <= latest)
    && KeepsRate(history, window, maxRequests)
    && PrunedFrom(history, deque, window, latest)
  }

  /** Pruning keeps a deque faithful and lets it decide. */
  lemma PruneIsFaithful(history: seq<Instant>, deque: seq<Instant>, window: nat, maxRequests: nat, before: Instant,
                        now: Instant)
    requires before <= now && Faithful(history, deque, window, maxRequests, before)
    ensures var kept := Unexpired(deque, window, now);
            && Faithful(history, kept, window, maxRequests, now)
            && (Allows(history, window, maxRequests, now) <==> |kept| < maxRequests)
            && (kept != [] ==> kept[0] + window > now)
            && RetryAfter(history, window, now)
              == Max(if kept == [] then window else kept[0] + window - now, ONE_SECOND)
  {
    hide Unexpired, CountLive, KeepsRate;
    DequeDecides(history, deque, window, before, now);
    UnexpiredFront(deque, window, now);
  }

  lemma AcceptIsFaithful(history: seq<Instant>, deque: seq<Instant>, window: nat, maxRequests: nat, now: Instant)
    requires Faithful(history, deque, window, maxRequests, now) && Allows(history, window, maxRequests, now)
    ensures Faithful(history + [now], deque + [now], window, maxRequests, now)
  {
    hide Allows, KeepsRate, Ascending;
    AcceptingKeepsRate(history, window, maxRequests, now);
  }

  lemma SetTimes(m: map<Ip, seq<Instant>>, ip: Ip, ts: seq<Instant>, other: Ip)
    ensures TimesOf(m[ip := ts], other) == if other == ip then ts else TimesOf(m, other)
  {
  }

  ghost predicate AllFaithful(accepted: map<Ip, seq<Instant>>, deques: map<Ip, seq<Instant>>, window: nat,
                              maxRequests: nat, latest: Instant)
  {
    forall ip :: Faithful(TimesOf(accepted, ip), TimesOf(deques, ip), window, maxRequests, latest)
  }

  /** What one deque, once pruned, says of the request at hand. */
  lemma FaithfulDecides(accepted: map<Ip, seq<Instant>>, deques: map<Ip, seq<Instant>>, window: nat, maxRequests: nat,
                        latest: Instant, ip: Ip, now: Instant)
    requires latest <= now && AllFaithful(accepted, deques, window, maxRequests, latest)
    ensures var history, kept := TimesOf(accepted, ip), Unexpired(TimesOf(deques, ip), window, now);
            && (Allows(history, window, maxRequests, now) <==> |kept| < maxRequests)
            && (kept != [] ==> kept[0] + window > now)
            && RetryAfter(history, window, now)
               == Max(if kept == [] then window else kept[0] + window - now, ONE_SECOND)
  {
    hide Faithful, Allows, RetryAfter, Unexpired, TimesOf;
    PruneIsFaithful(TimesOf(accepted, ip), TimesOf(deques, ip), window, maxRequests, latest, now);
  }

  lemma PruneAll(accepted: map<Ip, seq<Instant>>, before: map<Ip, seq<Instant>>, after: map<Ip, seq<Instant>>,
                 window: nat, maxRequests: nat, latest: Instant, now: Instant)
    requires latest <= now && AllFaithful(accepted, before, window, maxRequests, latest)
    requires forall ip :: TimesOf(after, ip) == Unexpired(TimesOf(before, ip), window, now)
    ensures AllFaithful(accepted, after, window, maxRequests, now)
  {
    hide Faithful, Allows, RetryAfter, Unexpired, TimesOf;
    forall ip ensures Faithful(TimesOf(accepted, ip), TimesOf(after, ip), window, maxRequests, now) {
      PruneIsFaithful(TimesOf(accepted, ip), TimesOf(before, ip), window, maxRequests, latest, now);
    }
  }

  /** `entry(ip).or_default()` changes no deque. */
  lemma TouchOne(accepted: map<Ip, seq<Instant>>, deques: map<Ip, seq<Instant>>, window: nat, maxRequests: nat,
                 now: Instant, ip: Ip)
    requires AllFaithful(accepted, deques, window, maxRequests, now)
    ensures AllFaithful(accepted, deques[ip := TimesOf(deques, ip)], window, maxRequests, now)
  {
    hide Faithful, TimesOf;
    var touched := deques[ip := TimesOf(deques, ip)];
    forall other ensures Faithful(TimesOf(accepted, other), TimesOf(touched, other), window, maxRequests, now) {
      SetTimes(deques, ip, TimesOf(deques, ip), other);
    }
  }

  lemma AcceptOne(accepted: map<Ip, seq<Instant>>, deques: map<Ip, seq<Instant>>, window: nat, maxRequests: nat,
                  now: Instant, ip: Ip)
    requires AllFaithful(accepted, deques, window, maxRequests, now)
    requires Allows(TimesOf(accepted, ip), window, maxRequests, now)
    ensures AllFaithful(accepted[ip := TimesOf(accepted, ip) + [now]], deques[ip := TimesOf(deques, ip) + [now]],
                        window, maxRequests, now)
  {
    hide Faithful, Allows, TimesOf;
    var history, deque := TimesOf(accepted, ip), TimesOf(deques, ip);
    AcceptIsFaithful(history, deque, window, maxRequests, now);
    var moreAccepted, moreDeques := accepted[ip := history + [now]], deques[ip := deque + [now]];
    forall other
      ensures Faithful(TimesOf(moreAccepted, other), TimesOf(moreDeques, other), window, maxRequests, now)
    {
      SetTimes(accepted, ip, history + [now], other);
      SetTimes(deques, ip, deque + [now], other);
    }
  }

  class SessionBootstrapRateLimiter {
    var requestsByIp: map<Ip, seq<Instant>>
    const window: nat
    const maxRequests: nat
    /** Every request so far, everything ever accepted, and the latest time seen. */
    ghost var requests: seq<Request>
    ghost var accepted: map<Ip, seq<Instant>>
    ghost var latest: Instant

    ghost predicate Valid()
      reads this
    {
      && accepted == AfterRequests(requests, window, maxRequests)
      && AllFaithful(accepted, requestsByIp, window, maxRequests, latest)
    }

    constructor (window: nat, maxRequests: nat)
      ensures Valid() && this.window == window && this.maxRequests == maxRequests
      ensures requests == [] && latest == 0
    {
      requestsByIp := map[];
      this.window := window;
      this.maxRequests := maxRequests;
      requests, accepted := [], map[];
      latest := 0;
    }

    /** The loop that pops expired requests off one deque. */
    method PopExpired(timestamps: seq<Instant>, now: Instant) returns (rest: seq<Instant>)
      ensures rest == Unexpired(timestamps, window, now)
    {
      rest := timestamps;
      while rest != []
        invariant Unexpired(rest, window, now) == Unexpired(timestamps, window, now)
        decreases |rest|
      {
        if rest[0] + window > now {
          break;
        }
        rest := rest[1..];
      }
    }

    /** `retain`: every deque is popped, and empty ones are forgotten. */
    method PruneExpired(now: Instant)
      modifies `requestsByIp
      ensures forall ip :: TimesOf(requestsByIp, ip) == Unexpired(TimesOf(old(requestsByIp), ip), window, now)
      ensures forall ip <- requestsByIp :: requestsByIp[ip] != []
    {
      hide Unexpired;
      NothingPruned([], window, now);
      var rest := requestsByIp.Keys;
      var kept: map<Ip, seq<Instant>> := map[];
      while rest != {}
        invariant rest <= requestsByIp.Keys && requestsByIp == old(requestsByIp)
        invariant kept.Keys <= requestsByIp.Keys - rest
        invariant forall ip :: ip in requestsByIp.Keys - rest ==>
          TimesOf(kept, ip) == Unexpired(requestsByIp[ip], window, now)
        invariant forall ip <- kept :: kept[ip] != []
        decreases |rest|
      {
        var ip :| ip in rest;
        var live := PopExpired(requestsByIp[ip], now);
        if live != [] {
          kept := kept[ip := live];
        }
        rest := rest - {ip};
      }
      requestsByIp := kept;
    }

    /**
     One request: refused with a retry time, or recorded. The decision is the ideal limiter's, made on all that
     it would have accepted of every request so far (`accepted == AfterRequests(requests, ...)` in `Valid`).
     */
    method CheckAndRecord(ip: Ip, now: Instant) returns (r: Result<bool, nat>)
      requires Valid() && latest <= now
      modifies this
      ensures Valid() && latest == now
      ensures requests == old(requests) + [Request(ip, now)]
      ensures r.Ok? <==> Allows(TimesOf(old(accepted), ip), window, maxRequests, now)
      ensures r.Err? ==> r.error == RetryAfter(TimesOf(old(accepted), ip), window, now)
    {
      hide AllFaithful, Allows, RetryAfter, Unexpired, TimesOf, AfterRequests;
      OneMoreRequest(requests, Request(ip, now), window, maxRequests);
      requests := requests + [Request(ip, now)];
      ghost var history := TimesOf(accepted, ip);
      FaithfulDecides(accepted, requestsByIp, window, maxRequests, latest, ip, now);
      PruneExpired(now);
      PruneAll(accepted, old(requestsByIp), requestsByIp, window, maxRequests, latest, now);
      latest := now;
      var entry := TimesOf(requestsByIp, ip);
      TouchOne(accepted, requestsByIp, window, maxRequests, now, ip);
      ghost var pruned := requestsByIp;
      requestsByIp := requestsByIp[ip := entry];
      if |entry| >= maxRequests {
        var retryAfter := if entry == [] then window
                          else if entry[0] + window >= now then entry[0] + window - now else 0;
        return Err(Max(retryAfter, ONE_SECOND));
      }
      AcceptOne(accepted, pruned, window, maxRequests, now, ip);
      assert requestsByIp[ip := entry + [now]] == pruned[ip := entry + [now]];
      requestsByIp := requestsByIp[ip := entry + [now]];
      accepted := accepted[ip := history + [now]];
      r := Ok(true);
    }

    /** In every reachable state the accepted times of every address keep the rate. */
    lemma RateHolds(ip: Ip, i: nat)
      requires Valid() && i + maxRequests < |TimesOf(accepted, ip)|
      ensures TimesOf(accepted, ip)[i] + window <= TimesOf(accepted, ip)[i + maxRequests]
    {
      assert Faithful(TimesOf(accepted, ip), TimesOf(requestsByIp, ip), window, maxRequests, latest);
    }
  }
}
