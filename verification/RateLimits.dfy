/** The two limiters a route carries: ip_rt_send_redirect backs off exponentially and gives
    up, ip_error is a token bucket. Time counts ticks and does not wrap. */
module RateLimits {
  import opened Powers
  import opened Wrappers

  datatype Config = Config(
    redirectNumber: nat, redirectLoad: nat, redirectSilence: nat,
    errorCost: nat, errorBurst: nat)

  const EINVAL := 22
  const EACCES := 13
  const ENETUNREACH := 101
  const EHOSTUNREACH := 113
  const ICMP_NET_UNREACH := 0
  const ICMP_HOST_UNREACH := 1
  const ICMP_PKT_FILTERED := 13

  /** rate_tokens and rate_last */
  datatype Rate = Rate(tokens: nat, last: nat)

  datatype Verdict = Verdict(rate: Rate, sent: bool)

  predicate Resets(cfg: Config, r: Rate, now: nat)
    requires r.last <= now
  {
    now - r.last > cfg.redirectSilence
  }

  function Redirect(cfg: Config, r: Rate, now: nat): (v: Verdict)
    requires r.last <= now
    ensures v.rate.last <= now
  {
    var tokens := if Resets(cfg, r, now) then 0 else r.tokens;
    if tokens >= cfg.redirectNumber then Verdict(Rate(tokens, now), false)
    else if now - r.last > cfg.redirectLoad * Power2(tokens) then Verdict(Rate(tokens + 1, now), true)
    else Verdict(r.(tokens := tokens), false)
  }

  function Refill(cfg: Config, r: Rate, now: nat): nat
    requires r.last <= now
  {
    if r.tokens + (now - r.last) > cfg.errorBurst then cfg.errorBurst else r.tokens + (now - r.last)
  }

  function Error(cfg: Config, r: Rate, now: nat): (v: Verdict)
    requires r.last <= now
    ensures v.rate.last == now
  {
    var tokens := Refill(cfg, r, now);
    if tokens >= cfg.errorCost then Verdict(Rate(tokens - cfg.errorCost, now), true)
    else Verdict(Rate(tokens, now), false)
  }

  function UnreachableCode(error: nat): Option<nat> {
    if error == EHOSTUNREACH then Some(ICMP_HOST_UNREACH)
    else if error == ENETUNREACH then Some(ICMP_NET_UNREACH)
    else if error == EACCES then Some(ICMP_PKT_FILTERED)
    else None
  }

  class RouteRate {
    const cfg: Config
    const error: nat
    var rateTokens: nat
    var rateLast: nat

    constructor (cfg: Config, error: nat)
      ensures this.cfg == cfg && this.error == error && State() == Rate(0, 0)
    {
      this.cfg, this.error, rateTokens, rateLast := cfg, error, 0, 0;
    }

    function State(): Rate
      reads this
    {
      Rate(rateTokens, rateLast)
    }

    /** ip_rt_send_redirect on a device that sends redirects */
    method SendRedirect(now: nat) returns (sent: bool)
      requires rateLast <= now
      modifies this`rateTokens, this`rateLast
      ensures Verdict(State(), sent) == Redirect(cfg, old(State()), now)
      ensures
        var waited := now - old(rateLast);
        var count := if waited > cfg.redirectSilence then 0 else old(rateTokens);
        && (sent <==> count < cfg.redirectNumber && waited > cfg.redirectLoad * Power2(count))
        && rateTokens == (if sent then count + 1 else count)
        && rateLast == (if sent || count >= cfg.redirectNumber then now else old(rateLast))
    {
      sent := false;
      if now - rateLast > cfg.redirectSilence {
        rateTokens := 0;
      }
      if rateTokens >= cfg.redirectNumber {
        rateLast := now;
        return;
      }
      if now - rateLast > cfg.redirectLoad * Power2(rateTokens) {
        sent := true;
        rateLast := now;
        rateTokens := rateTokens + 1;
      }
    }

    /** ip_error: the ICMP code sent, if any. Other errors drop the packet silently and
        leave the bucket alone. */
    method IpError(now: nat) returns (code: Option<nat>)
      requires rateLast <= now
      modifies this`rateTokens, this`rateLast
      ensures error !in {13, 101, 113} ==> code == None && State() == old(State())
      ensures error in {13, 101, 113} ==>
        var v := Error(cfg, old(State()), now);
        var earned := old(rateTokens) + (now - old(rateLast));
        && State() == v.rate && v.sent == (cfg.errorCost <= earned && cfg.errorCost <= cfg.errorBurst)
        && rateLast == now
        && rateTokens + (if v.sent then cfg.errorCost else 0) ==
             (if earned <= cfg.errorBurst then earned else cfg.errorBurst)
        && code == if !v.sent then None
                   else if error == 113 then Some(1) else if error == 101 then Some(0) else Some(13)
    {
      code := None;
      var c := UnreachableCode(error);
      if c.None? {
        return;
      }
      rateTokens := rateTokens + (now - rateLast);
      if rateTokens > cfg.errorBurst {
        rateTokens := cfg.errorBurst;
      }
      rateLast := now;
      if rateTokens >= cfg.errorCost {
        rateTokens := rateTokens - cfg.errorCost;
        code := c;
      }
    }
  }

  // ----- Traces -----

  /** Packets arrive in order, none before the state's last event. */
  ghost predicate Ordered(start: nat, times: seq<nat>) {
    && (times != [] ==> start <= times[0])
    && forall i, j :: 0 <= i < j < |times| ==> times[i] <= times[j]
  }

  /** The state after a trace, and when redirects were sent since the last reset. */
  datatype Tracked = Tracked(rate: Rate, sends: seq<nat>)

  /** One more packet that calls for a redirect */
  ghost function Follow(cfg: Config, t: Tracked, now: nat): (t': Tracked)
    requires t.rate.last <= now
    ensures t'.rate.last <= now
  {
    var v := Redirect(cfg, t.rate, now);
    var since := if Resets(cfg, t.rate, now) then [] else t.sends;
    Tracked(v.rate, if v.sent then since + [now] else since)
  }

  ghost function Track(cfg: Config, r: Rate, times: seq<nat>): (t: Tracked)
    requires Ordered(r.last, times)
    ensures if times == [] then t.rate == r else t.rate.last <= times[|times| - 1]
  {
    if times == [] then Tracked(r, [])
    else
      var init, now := times[..|times| - 1], times[|times| - 1];
      var before := Track(cfg, r, init);
      assert init != [] ==> init[|init| - 1] == times[|times| - 2] <= now;
      Follow(cfg, before, now)
  }

  /** The k-th send since a reset came more than load * 2^k after the one before it. */
  ghost predicate BackedOff(cfg: Config, t: Tracked) {
    && |t.sends| == t.rate.tokens <= cfg.redirectNumber
    && (t.sends != [] ==> t.sends[|t.sends| - 1] <= t.rate.last)
    && forall j, k :: 0 <= j && k == j + 1 < |t.sends| ==>
         t.sends[k] - t.sends[j] > cfg.redirectLoad * Power2(k)
  }

  lemma StartsBackedOff(cfg: Config, r: Rate)
    requires r.tokens == 0
    ensures BackedOff(cfg, Tracked(r, []))
  {
  }

  lemma BacksOffOnceMore(cfg: Config, t: Tracked, now: nat)
    requires BackedOff(cfg, t) && t.rate.last <= now
    ensures BackedOff(cfg, Follow(cfg, t, now))
  {
    hide Power2;
    var t' := Follow(cfg, t, now);
    forall j, k | 0 <= j && k == j + 1 < |t'.sends|
      ensures t'.sends[k] - t'.sends[j] > cfg.redirectLoad * Power2(k)
    {
      if k < |t.sends| && !Resets(cfg, t.rate, now) {
        assert t'.sends[k] == t.sends[k] && t'.sends[j] == t.sends[j];
      }
    }
  }

  lemma {:induction false} AlwaysBacksOff(cfg: Config, r: Rate, times: seq<nat>)
    requires Ordered(r.last, times) && r.tokens == 0
    ensures BackedOff(cfg, Track(cfg, r, times))
  {
    hide BackedOff, Follow;
    if times != [] {
      var init, now := times[..|times| - 1], times[|times| - 1];
      AlwaysBacksOff(cfg, r, init);
      assert init != [] ==> init[|init| - 1] == times[|times| - 2] <= now;
      BacksOffOnceMore(cfg, Track(cfg, r, init), now);
    } else {
      StartsBackedOff(cfg, r);
    }
  }

  lemma {:induction false} Spread(cfg: Config, t: Tracked, n: nat)
    requires BackedOff(cfg, t) && 2 <= n <= |t.sends|
    ensures t.sends[n - 1] - t.sends[0] > cfg.redirectLoad * (Power2(n) - 2)
  {
    var j, k := n - 2, n - 1;
    assert t.sends[k] - t.sends[j] > cfg.redirectLoad * Power2(k);
    if n > 2 {
      Spread(cfg, t, n - 1);
      assert cfg.redirectLoad * (Power2(k) - 2) + cfg.redirectLoad * Power2(k)
          == cfg.redirectLoad * (2 * Power2(k) - 2);
    } else {
      assert Power2(1) == 2 && Power2(2) == 4;
    }
  }

  /** On every trace of packets asking for redirects, at most redirectNumber are sent between
      resets, and the n-th comes more than load * (2^n - 2) after the first. */
  lemma RedirectsSpaced(cfg: Config, r: Rate, times: seq<nat>, n: nat)
    requires Ordered(r.last, times) && r.tokens == 0
    ensures var sends := Track(cfg, r, times).sends;
      && |sends| <= cfg.redirectNumber
      && (2 <= n <= |sends| ==> sends[n - 1] - sends[0] > cfg.redirectLoad * (Power2(n) - 2))
  {
    AlwaysBacksOff(cfg, r, times);
    if 2 <= n <= |Track(cfg, r, times).sends| {
      Spread(cfg, Track(cfg, r, times), n);
    }
  }

  /** A packet after a silence that also outlasts the load limit is answered. */
  lemma AnsweredAfterSilence(cfg: Config, r: Rate, now: nat)
    requires now > r.last + cfg.redirectSilence && now > r.last + cfg.redirectLoad && cfg.redirectNumber > 0
    ensures Redirect(cfg, r, now) == Verdict(Rate(1, now), true)
  {
    assert Power2(0) == 1;
  }

  // ----- Redirects between silences -----

  /** How many redirects a trace causes. */
  ghost function RedirectsSent(cfg: Config, r: Rate, times: seq<nat>): nat
    requires Ordered(r.last, times)
    decreases |times|
  {
    if times == [] then 0
    else
      var v := Redirect(cfg, r, times[0]);
      assert forall j :: 0 <= j < |times[1..]| ==> times[1..][j] == times[j + 1];
      (if v.sent then 1 else 0) + RedirectsSent(cfg, v.rate, times[1..])
  }

  /** No two neighbouring packets are further apart than redirectSilence. */
  ghost predicate NoSilence(cfg: Config, times: seq<nat>) {
    forall i, j :: 0 <= i && j == i + 1 < |times| ==> times[j] - times[i] <= cfg.redirectSilence
  }

  /** The packets from a up to b of a trace lie between silences: none within, and one before
      them unless they are the first. */
  ghost predicate BetweenSilences(cfg: Config, r: Rate, times: seq<nat>, a: nat, b: nat) {
    && Ordered(r.last, times) && a <= b <= |times| && NoSilence(cfg, times[a..b])
    && (0 < a < b ==> times[a] - times[a - 1] > cfg.redirectSilence)
  }

  /** How many redirects those packets cause. */
  ghost function SentBetween(cfg: Config, r: Rate, times: seq<nat>, a: nat, b: nat): nat
    requires BetweenSilences(cfg, r, times, a, b)
  {
    Split(r.last, times, a, b);
    RedirectsSent(cfg, Track(cfg, r, times[..a]).rate, times[a..b])
  }

  lemma Split(start: nat, times: seq<nat>, a: nat, b: nat)
    requires Ordered(start, times) && a <= b <= |times|
    ensures Ordered(start, times[..a])
    ensures forall last: nat :: (last == start && a == 0) || (a > 0 && last <= times[a - 1]) ==> Ordered(last, times[a..b])
  {
    assert forall j :: 0 <= j < b - a ==> times[a..b][j] == times[a + j];
    assert a > 0 ==> start <= times[0] <= times[a - 1];
  }

  /** The configurations for which the limiter keeps its promise. Otherwise a packet that the
      backoff holds back leaves no trace, and the limiter mistakes the time since the one
      before it for a silence. */
  predicate KeepsPromise(cfg: Config) {
    cfg.redirectNumber <= 1 || cfg.redirectLoad == 0 || cfg.redirectSilence == 0
  }

  /** With such a configuration: between silences at most the redirects still allowed are
      sent. `prev` is the packet before; it is recorded, or nothing was sent since the reset,
      or the next packet resets. */
  lemma {:induction false} BoundedFrom(cfg: Config, r: Rate, prev: nat, times: seq<nat>)
    requires KeepsPromise(cfg) && r.last <= prev && Ordered(prev, times)
    requires NoSilence(cfg, [prev] + times)
    requires r.tokens == 0 || (prev == r.last && r.tokens <= cfg.redirectNumber)
    ensures Ordered(r.last, times)
    ensures RedirectsSent(cfg, r, times) + r.tokens <= cfg.redirectNumber
    decreases |times|
  {
    if times != [] {
      var now, rest, v := times[0], times[1..], Redirect(cfg, r, times[0]);
      assert forall j :: 0 <= j < |rest| ==> rest[j] == times[j + 1];
      var longer, i, j := [prev] + times, 0, 1;
      assert longer[j] - longer[i] <= cfg.redirectSilence;
      assert [now] + rest == times;
      NoSilenceAfter(cfg, prev, times);
      HeldOrRecorded(cfg, r, prev, now);
      BoundedFrom(cfg, v.rate, now, rest);
    }
  }

  lemma NoSilenceAfter(cfg: Config, prev: nat, times: seq<nat>)
    requires NoSilence(cfg, [prev] + times)
    ensures NoSilence(cfg, times)
  {
    forall i, j | 0 <= i && j == i + 1 < |times| ensures times[j] - times[i] <= cfg.redirectSilence {
      var longer := [prev] + times;
      var i', j' := i + 1, j + 1;
      assert longer[j'] - longer[i'] <= cfg.redirectSilence;
    }
  }

  /** The step of that bound */
  lemma HeldOrRecorded(cfg: Config, r: Rate, prev: nat, now: nat)
    requires KeepsPromise(cfg) && r.last <= prev <= now && now - prev <= cfg.redirectSilence
    requires r.tokens == 0 || (prev == r.last && r.tokens <= cfg.redirectNumber)
    ensures var v := Redirect(cfg, r, now);
      && (v.rate.tokens == 0 || (now == v.rate.last && v.rate.tokens <= cfg.redirectNumber))
      && (if v.sent then v.rate.tokens == r.tokens + 1 <= cfg.redirectNumber else v.rate.tokens == r.tokens)
  {
    if cfg.redirectLoad == 0 {
      assert forall k: nat :: cfg.redirectLoad * Power2(k) == 0;
    }
  }

  /** Without it: from a state with at most one redirect since the reset and the last packet
      held back `held` ticks after it, any number of redirects can be provoked without a gap
      longer than the silence. */
  lemma {:induction false} NeverStops(cfg: Config, r: Rate, held: nat, count: nat) returns (times: seq<nat>)
    requires !KeepsPromise(cfg)
    requires r.tokens <= 1 && held <= cfg.redirectLoad && (held == 0 ==> r.tokens == 1)
    ensures Ordered(r.last + held, times) && Ordered(r.last, times) && NoSilence(cfg, [r.last + held] + times)
    ensures RedirectsSent(cfg, r, times) == count
    decreases count, cfg.redirectLoad - held
  {
    if count == 0 {
      times := [];
    } else if held == 0 {
      assert Power2(1) == 2;
      assert Redirect(cfg, r, r.last + 1) == Verdict(r, false);
      var rest := NeverStops(cfg, r, 1, count);
      times := Preceded(cfg, r, 0, r.last + 1, rest);
    } else {
      assert Power2(0) == 1;
      var now := r.last + held + cfg.redirectSilence;
      var v := Redirect(cfg, r, now);
      if v.sent {
        var rest := NeverStops(cfg, v.rate, 0, count - 1);
        times := Preceded(cfg, r, held, now, rest);
      } else {
        var rest := NeverStops(cfg, v.rate, held + cfg.redirectSilence, count);
        times := Preceded(cfg, r, held, now, rest);
      }
    }
  }

  lemma Preceded(cfg: Config, r: Rate, held: nat, now: nat, rest: seq<nat>) returns (times: seq<nat>)
    requires r.last + held <= now <= r.last + held + cfg.redirectSilence
    requires Ordered(now, rest) && NoSilence(cfg, [now] + rest)
    ensures times == [now] + rest && Ordered(r.last + held, times) && Ordered(r.last, times)
    ensures NoSilence(cfg, [r.last + held] + times)
    ensures var v := Redirect(cfg, r, now);
      && Ordered(v.rate.last, rest)
      && RedirectsSent(cfg, r, times) == (if v.sent then 1 else 0) + RedirectsSent(cfg, v.rate, rest)
  {
    times := [now] + rest;
    assert times[1..] == rest;
    var longer := [r.last + held] + times;
    forall i, j | 0 <= i && j == i + 1 < |longer| ensures longer[j] - longer[i] <= cfg.redirectSilence {
      if i > 0 {
        var i', j' := i - 1, j - 1;
        assert times[j'] - times[i'] <= cfg.redirectSilence;
      }
    }
  }

  /** From a fresh state, a trace without a silence that causes as many redirects as wanted */
  lemma Unbounded(cfg: Config, r: Rate, count: nat) returns (times: seq<nat>)
    requires !KeepsPromise(cfg) && r.tokens == 0
    ensures Ordered(r.last, times) && NoSilence(cfg, times) && RedirectsSent(cfg, r, times) == count + 1
  {
    assert Power2(0) == 1;
    var now := r.last + cfg.redirectLoad + 1;
    var v := Redirect(cfg, r, now);
    var rest := NeverStops(cfg, v.rate, 0, count);
    times := [now] + rest;
    assert times[1..] == rest;
  }

  /** The defaults at 100 ticks a second are no exception. */
  lemma DefaultsExceed() returns (times: seq<nat>)
    ensures var cfg := Config(9, 2, 2048, 100, 500);
      Ordered(0, times) && NoSilence(cfg, times) && RedirectsSent(cfg, Rate(0, 0), times) == 10
  {
    times := Unbounded(Config(9, 2, 2048, 100, 500), Rate(0, 0), 9);
  }

  /** Between silences at most redirectNumber redirects are sent, on every trace of a route
      that starts fresh, if and only if the configuration is one of these. */
  lemma RedirectsBoundedIff(cfg: Config, r: Rate)
    requires r.tokens == 0
    ensures (forall times, a, b :: BetweenSilences(cfg, r, times, a, b) ==>
               SentBetween(cfg, r, times, a, b) <= cfg.redirectNumber)
       <==> KeepsPromise(cfg)
  {
    if KeepsPromise(cfg) {
      forall times, a, b | BetweenSilences(cfg, r, times, a, b)
        ensures SentBetween(cfg, r, times, a, b) <= cfg.redirectNumber
      {
        BoundedBetween(cfg, r, times, a, b);
      }
    } else {
      var times := Unbounded(cfg, r, cfg.redirectNumber);
      assert times[0..|times|] == times && times[..0] == [];
      assert BetweenSilences(cfg, r, times, 0, |times|);
      assert SentBetween(cfg, r, times, 0, |times|) == cfg.redirectNumber + 1;
    }
  }

  /** After a silence the limiter starts anew. */
  lemma BoundedBetween(cfg: Config, r: Rate, times: seq<nat>, a: nat, b: nat)
    requires KeepsPromise(cfg) && r.tokens == 0 && BetweenSilences(cfg, r, times, a, b)
    ensures SentBetween(cfg, r, times, a, b) <= cfg.redirectNumber
  {
    Split(r.last, times, a, b);
    var r', part := Track(cfg, r, times[..a]).rate, times[a..b];
    if part != [] {
      var anew := Rate(0, r'.last);
      if a > 0 {
        assert r'.last <= times[..a][a - 1] == times[a - 1];
        assert Resets(cfg, r', part[0]);
        assert Redirect(cfg, r', part[0]) == Redirect(cfg, anew, part[0]);
      }
      assert RedirectsSent(cfg, r', part) == RedirectsSent(cfg, anew, part);
      assert forall i, j :: 0 <= i && j == i + 1 < |[part[0]] + part| ==>
        ([part[0]] + part)[j] == part[i];
      BoundedFrom(cfg, anew, part[0], part);
    }
  }

  // ----- The token bucket -----

  /** How many ICMP errors a trace causes. */
  ghost function ErrorsSent(cfg: Config, r: Rate, times: seq<nat>): nat
    requires Ordered(r.last, times)
    decreases |times|
  {
    if times == [] then 0
    else
      var v := Error(cfg, r, times[0]);
      assert forall j :: 0 <= j < |times[1..]| ==> times[1..][j] == times[j + 1];
      (if v.sent then 1 else 0) + ErrorsSent(cfg, v.rate, times[1..])
  }

  /** Errors at least the cost of one apart are all sent, if the bucket can hold that much, */
  lemma {:induction false} SpacedErrorsSent(cfg: Config, r: Rate, times: seq<nat>)
    requires Ordered(r.last, times) && cfg.errorBurst >= cfg.errorCost
    requires times != [] ==> times[0] >= r.last + cfg.errorCost
    requires forall i, j :: 0 <= i && j == i + 1 < |times| ==> times[j] - times[i] >= cfg.errorCost
    ensures ErrorsSent(cfg, r, times) == |times|
    decreases |times|
  {
    if times != [] {
      var rest := times[1..];
      assert forall j :: 0 <= j < |rest| ==> rest[j] == times[j + 1];
      forall i, j | 0 <= i && j == i + 1 < |rest| ensures rest[j] - rest[i] >= cfg.errorCost {
        var i', j' := i + 1, j + 1;
        assert times[j'] - times[i'] >= cfg.errorCost;
      }
      var i, j := 0, 1;
      assert j < |times| ==> times[j] - times[i] >= cfg.errorCost;
      SpacedErrorsSent(cfg, Error(cfg, r, times[0]).rate, rest);
    }
  }

  /** and if it cannot, none ever is. */
  lemma {:induction false} SmallBurstSendsNothing(cfg: Config, r: Rate, times: seq<nat>)
    requires Ordered(r.last, times) && cfg.errorBurst < cfg.errorCost
    ensures ErrorsSent(cfg, r, times) == 0
    decreases |times|
  {
    if times != [] {
      var rest := times[1..];
      assert forall j :: 0 <= j < |rest| ==> rest[j] == times[j + 1];
      SmallBurstSendsNothing(cfg, Error(cfg, r, times[0]).rate, rest);
    }
  }

  lemma {:induction false} Spent(cfg: Config, r: Rate, times: seq<nat>)
    requires Ordered(r.last, times) && times != []
    ensures ErrorsSent(cfg, r, times) * cfg.errorCost <= Refill(cfg, r, times[0]) + (times[|times| - 1] - times[0])
    decreases |times|
  {
    var v, rest := Error(cfg, r, times[0]), times[1..];
    assert forall j :: 0 <= j < |rest| ==> rest[j] == times[j + 1];
    var k := ErrorsSent(cfg, v.rate, rest);
    if rest != [] {
      Spent(cfg, v.rate, rest);
      assert k * cfg.errorCost <= v.rate.tokens + (times[|times| - 1] - times[0]);
    }
    if v.sent {
      OneMore(k, cfg.errorCost);
    }
  }

  lemma OneMore(k: nat, cost: nat)
    ensures (1 + k) * cost == cost + k * cost
  {
  }

  /** In every window of length T, whatever the state at its start, at most
      (burst + T) / cost errors are sent for one route. */
  lemma ErrorsBounded(cfg: Config, r: Rate, times: seq<nat>, window: nat)
    requires Ordered(r.last, times) && cfg.errorCost > 0
    requires times != [] ==> times[|times| - 1] - times[0] <= window
    ensures ErrorsSent(cfg, r, times) <= (cfg.errorBurst + window) / cfg.errorCost
  {
    var k, cost, total := ErrorsSent(cfg, r, times), cfg.errorCost, cfg.errorBurst + window;
    if times != [] {
      Spent(cfg, r, times);
    }
    assert k * cost <= total;
    QuotientAtLeast(k, cost, total);
  }

  lemma QuotientAtLeast(k: nat, cost: nat, total: nat)
    requires cost > 0 && k * cost <= total
    ensures k <= total / cost
  {
    var q := total / cost;
    assert total < (q + 1) * cost;
    if k > q {
      Monotone(q + 1, k, cost);
    }
  }

  lemma Monotone(a: nat, b: nat, c: nat)
    requires a <= b
    ensures a * c <= b * c
  {
  }
}
