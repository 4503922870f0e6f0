/** Delayed flushes of the route cache: rt_cache_flush may put a flush off, but never beyond
    a deadline. Time counts ticks and does not wrap. */
module FlushTimer {
  import opened RouteEntries
  import opened RouteChains
  import opened RouteCache
  import opened Wrappers

  /** ip_rt_min_delay and ip_rt_max_delay */
  datatype Config = Config(minDelay: nat, maxDelay: nat)

  /** rt_flush_timer and rt_deadline, where 0 stands for none */
  datatype Timer = Timer(expires: Option<nat>, deadline: nat)

  const IDLE := Timer(None, 0)

  datatype Event = Request(at: nat, delay: int, user: bool) | Fires(at: nat)

  /** A request for no particular delay gets the smallest. */
  function Effective(cfg: Config, delay: int): int {
    if delay < 0 then cfg.minDelay else delay
  }

  /** The delay a request is granted while a flush is already pending, or the one it asks for */
  function Granted(cfg: Config, t: Timer, e: Event): int
    requires e.Request?
  {
    var delay := Effective(cfg, e.delay);
    if t.expires.Some? && delay > 0 && t.deadline != 0 then
      var left := t.deadline - e.at;
      var patience := if e.user && left < cfg.maxDelay - cfg.minDelay then 0 else left;
      if delay > patience then patience else delay
    else delay
  }

  /** Does the event empty the cache? */
  predicate Flushes(cfg: Config, t: Timer, e: Event) {
    e.Fires? || Granted(cfg, t, e) <= 0
  }

  function After(cfg: Config, t: Timer, e: Event): Timer {
    if Flushes(cfg, t, e) then IDLE
    else Timer(Some(e.at + Granted(cfg, t, e)), if t.deadline == 0 then e.at + cfg.maxDelay else t.deadline)
  }

  /** rt_cache_flush and the timer's function, on the cache itself */
  class Flusher {
    const cache: Cache
    const cfg: Config
    var timer: Option<nat>
    var deadline: nat

    constructor (cache: Cache, cfg: Config)
      ensures this.cache == cache && this.cfg == cfg && State() == IDLE
    {
      this.cache, this.cfg, timer, deadline := cache, cfg, None, 0;
    }

    function State(): Timer
      reads this
    {
      Timer(timer, deadline)
    }

    /** At once without a delay, and also when the deadline of a pending flush has passed or,
        for a user, is nearer than the delays differ. Else the flush is put off, by the delay
        asked for, but not beyond a deadline already set. */
    method CacheFlush(requested: int, user: bool, now: nat)
      requires cache.Valid()
      modifies this, cache`chains, cache.table
      ensures
        var asked := if requested < 0 then cfg.minDelay else requested;
        var pending := old(timer.Some? && deadline != 0);
        var left := old(deadline) - now;
        if asked == 0 || (pending && (left <= 0 || (user && left < cfg.maxDelay - cfg.minDelay))) then
          timer == None && deadline == 0 && forall b :: 0 <= b < |cache.chains| ==> cache.chains[b] == []
        else
          && timer == Some(if pending && left < asked then old(deadline) else now + asked)
          && deadline == (if old(deadline) == 0 then now + cfg.maxDelay else old(deadline))
          && cache.chains == old(cache.chains)
      ensures cache.Valid() && State() == After(cfg, old(State()), Request(now, requested, user))
      ensures if Flushes(cfg, old(State()), Request(now, requested, user))
        then |cache.chains| == |old(cache.chains)| && Entries(cache.chains) == {}
        else cache.chains == old(cache.chains)
    {
      hide Entries, Chained, Filed, Cache.AllChained;
      EntriesContain(cache.chains);
      var delay := if requested < 0 then cfg.minDelay else requested;
      var running := timer.Some?;
      timer := None;
      if running && delay > 0 && deadline != 0 {
        var left := deadline - now;
        if user && left < cfg.maxDelay - cfg.minDelay {
          left := 0;
        }
        if delay > left {
          delay := left;
        }
      }
      if delay <= 0 {
        RunFlush();
        return;
      }
      if deadline == 0 {
        deadline := now + cfg.maxDelay;
      }
      timer := Some(now + delay);
    }

    /** The timer is due. */
    method Fire(now: nat)
      requires cache.Valid() && timer.Some? && timer.value <= now
      modifies this, cache`chains, cache.table
      ensures cache.Valid() && |cache.chains| == |old(cache.chains)| && Entries(cache.chains) == {}
      ensures State() == After(cfg, old(State()), Fires(now)) && timer == None && deadline == 0
    {
      hide Entries, Chained, Filed, Cache.AllChained;
      EntriesContain(cache.chains);
      timer := None;
      RunFlush();
    }

    /** rt_run_flush, called directly or when the timer has fired */
    method RunFlush()
      requires cache.Valid() && timer == None
      modifies this`deadline, cache`chains, cache.table
      ensures cache.Valid() && State() == IDLE && |cache.chains| == |old(cache.chains)|
      ensures Entries(cache.chains) == {} && forall b :: 0 <= b < |cache.chains| ==> cache.chains[b] == []
    {
      hide Entries, Chained, Filed, Cache.AllChained;
      deadline := 0;
      cache.RunFlush();
      NothingFiled(cache.chains);
    }
  }

  /** A request without delay is served at once, whatever is pending. */
  lemma ServedAtOnce(cfg: Config, t: Timer, e: Event)
    requires e.Request? && Effective(cfg, e.delay) <= 0
    ensures Flushes(cfg, t, e) && After(cfg, t, e) == IDLE
  {
  }

  /** A flush is pending for a request made at `since`. */
  predicate Pending(cfg: Config, t: Timer, since: nat) {
    t.expires.Some? && t.expires.value <= t.deadline == since + cfg.maxDelay && t.deadline > 0
  }

  /** From rest, the timer is set within the deadline exactly for a delay within the maximum;
      nothing else in the code enforces that. */
  lemma FirstRequest(cfg: Config, e: Event)
    requires e.Request? && !Flushes(cfg, IDLE, e)
    ensures Pending(cfg, After(cfg, IDLE, e), e.at) <==> Effective(cfg, e.delay) <= cfg.maxDelay
  {
  }

  /** So a minimum above the maximum breaks the promise even for a request without a delay. */
  lemma MinimumAboveMaximum()
    ensures !Pending(Config(20, 10), After(Config(20, 10), IDLE, Request(5, -1, true)), 5)
  {
  }

  /** The timer fires when it is due, so nothing happens after that before it has fired. */
  predicate InTime(t: Timer, e: Event) {
    (t.expires.Some? ==> e.at <= t.expires.value) && (e.Fires? ==> t.expires == Some(e.at))
  }

  /** Only requests made at rest have to keep within the maximum delay. */
  ghost predicate Run(cfg: Config, t: Timer, now: nat, events: seq<Event>)
    decreases |events|
  {
    events != [] ==>
      && now <= events[0].at && InTime(t, events[0])
      && (events[0].Request? && t == IDLE ==> Effective(cfg, events[0].delay) <= cfg.maxDelay)
      && Run(cfg, After(cfg, t, events[0]), events[0].at, events[1..])
  }

  function StateAt(cfg: Config, t: Timer, events: seq<Event>, n: nat): Timer
    requires n <= |events|
    decreases n
  {
    if n == 0 then t else StateAt(cfg, After(cfg, t, events[0]), events[1..], n - 1)
  }

  /** A request while a flush is pending leaves it pending for the same first request, or
      flushes at once: later requests never put the flush off beyond the deadline. */
  lemma StaysPending(cfg: Config, t: Timer, since: nat, e: Event)
    requires Pending(cfg, t, since) && e.Request? && InTime(t, e) && !Flushes(cfg, t, e)
    ensures Pending(cfg, After(cfg, t, e), since)
  {
  }

  /** In every run that goes on long enough, a pending flush comes within the deadline. */
  lemma {:induction false} PendingIsServed(cfg: Config, t: Timer, now: nat, events: seq<Event>, since: nat) returns (n: nat)
    requires Run(cfg, t, now, events) && Pending(cfg, t, since)
    requires events != [] && events[|events| - 1].at > since + cfg.maxDelay
    ensures n < |events| && Flushes(cfg, StateAt(cfg, t, events, n), events[n]) && events[n].at <= since + cfg.maxDelay
    decreases |events|
  {
    if Flushes(cfg, t, events[0]) {
      n := 0;
    } else {
      StaysPending(cfg, t, since, events[0]);
      n := PendingIsServed(cfg, After(cfg, t, events[0]), events[0].at, events[1..], since);
      n := n + 1;
    }
  }

  /** In every run in which requests made at rest keep within the maximum delay, the cache is
      emptied within that delay of each request, however many others follow and whatever delay
      they ask for. */
  lemma {:induction false} EveryRequestIsServed(cfg: Config, t: Timer, now: nat, since: nat, events: seq<Event>, r: nat)
    returns (n: nat)
    requires t == IDLE || (Pending(cfg, t, since) && since <= now)
    requires Run(cfg, t, now, events)
    requires r < |events| && events[r].Request? && events[|events| - 1].at > events[r].at + cfg.maxDelay
    ensures r <= n < |events| && Flushes(cfg, StateAt(cfg, t, events, n), events[n])
    ensures events[n].at <= events[r].at + cfg.maxDelay
    decreases |events|
  {
    var e := events[0];
    var t' := After(cfg, t, e);
    var since' := if t == IDLE then e.at else since;
    if !Flushes(cfg, t, e) {
      if t == IDLE {
        FirstRequest(cfg, e);
      } else {
        StaysPending(cfg, t, since, e);
      }
    }
    if r > 0 {
      n := EveryRequestIsServed(cfg, t', e.at, since', events[1..], r - 1);
      n := n + 1;
    } else if Flushes(cfg, t, e) {
      n := 0;
    } else {
      n := PendingIsServed(cfg, t', e.at, events[1..], since');
      n := n + 1;
    }
  }
}
