/** Whole runs of the route cache: lookups, released references, expiry times, redirects,
    negative advice, garbage collection, expiry, flushes and changes of the routing tables in
    any order. */
module RouteRuns {
  import opened RouteEntries
  import opened RouteChains
  import opened RouteCache
  import opened RouteCollector
  import opened RouteLookup
  import opened Wrappers
  import FlushTimer

  /** Entries are named by their keys: what happens to an entry that has left the cache does
      not concern the cache. */
  datatype Event =
    | Input(daddr: bv32, saddr: bv32, tos: bv8, iif: bv32, fwmark: bv32)
    | Output(key: RtKey, route: Route)
    | Released(key: RtKey)
    | Expires(key: RtKey, at: nat)
    | Advised(key: RtKey, obsolete: bool)
    | Redirected(message: Message, ifindex: bv32, trusted: bool)
    | Collection
    | Expiry
    | Flush(delay: int)
    | TimerDue
    | NewFib(fib: RtKey -> Answer)

  /** What others decide at an event: how long after the one before it comes, what happens
      while a route is interned or the collector runs, and at a redirect. */
  datatype Moment = Moment(wait: nat, env: Surroundings, chances: nat -> Chance)

  /** Input comes on a device, output on none, and during the periodic sweep the clock does
      not stand still for ever. */
  ghost predicate Sensible(e: Event, at: Moment) {
    && (e.Input? ==> e.iif != 0) && (e.Output? ==> e.key.iif == 0)
    && (e.Expiry? ==> !StandsStill(at.env.seen.passes))
  }

  /** The routing tables in force after the first n events */
  ghost function FibAfter(fib: RtKey -> Answer, events: seq<Event>, n: nat): RtKey -> Answer
    requires n <= |events|
  {
    if n == 0 then fib
    else if events[n - 1].NewFib? then events[n - 1].fib
    else FibAfter(fib, events, n - 1)
  }

  /** What a lookup must answer under these tables: nothing if they refuse the key, and else
      their route, but for a unicast route that is not cached and cannot be interned because
      its neighbour is not bound, not even after the collector has run where it may. */
  predicate Agrees(fib: RtKey -> Answer, e: Event, env: Surroundings, answer: Option<Route>) {
    e.Input? ==>
      match fib(RtKey(e.daddr, e.saddr, e.iif, 0, e.tos & 0x1C, e.fwmark))
      case Refused(_) => answer == None
      case Answer(route) =>
        || answer == Some(route)
        || (answer == None && route.unicast
            && (if env.bind(0) == -105 && !env.softirq then env.bind(1) else env.bind(0)) != 0)
  }

  lemma NextFib(fib: RtKey -> Answer, events: seq<Event>, n: nat)
    requires n <= |events|
    ensures FibAfter(fib, events, 0) == fib
    ensures n < |events| ==>
      FibAfter(fib, events, n + 1) == if events[n].NewFib? then events[n].fib else FibAfter(fib, events, n)
  {
  }

  method Handle(router: Router, flusher: FlushTimer.Flusher, e: Event, now: nat, at: Moment)
    returns (answer: Option<Route>, later: nat)
    requires router.Valid() && Coherent(router.cache.chains, router.fib) && Sensible(e, at)
    requires router.collector.lastGc <= now && flusher.cache == router.cache
    modifies router`fib, router.collector, flusher, router.cache`chains, router.cache.table, Entries(router.cache.chains)
    ensures router.Valid() && Coherent(router.cache.chains, router.fib)
    ensures router.collector.lastGc <= later && now <= later
    ensures router.fib == if e.NewFib? then e.fib else old(router.fib)
    ensures Agrees(old(router.fib), e, at.env, answer)
    ensures forall x :: x in Entries(router.cache.chains) && x !in old(Entries(router.cache.chains)) ==> fresh(x)
  {
    hide Entries, Chained, Filed, Without, Cache.AllChained, Bucket, Thinned, AllThinned, Interned, Total, Coherent, StandsStill;
    answer, later := None, now;
    EntriesExist(router.cache.chains);
    match e
    case Input(daddr, saddr, tos, iif, fwmark) =>
      var err, res;
      err, res, later := router.RouteInput(daddr, saddr, tos, iif, fwmark, now, at.env);
      answer := if res == null then None else Some(res.route);
    case Output(key, route) =>
      var err;
      err, later := Cached(router, key, route, now, at.env);
    case Released(key) =>
      Release(router, key);
    case Expires(key, time) =>
      SetExpires(router, key, time);
    case Advised(key, obsolete) =>
      Advise(router, key, obsolete);
    case Redirected(message, ifindex, trusted) =>
      ghost var steps, tables;
      later, steps, tables := router.Redirect(message, ifindex, trusted, now, at.chances);
    case Collection =>
      Collect(router, now, at.env);
    case Expiry =>
      CheckExpiry(router, now, at.env.seen.passes);
    case Flush(delay) =>
      RequestFlush(router, flusher, delay, at.env.softirq, now);
    case TimerDue =>
      later := FireTimer(router, flusher, now);
    case NewFib(fib) =>
      router.ChangeFib(fib, flusher, !at.env.softirq, now);
  }

  /** The entry with this key, if it is in the cache. */
  method Lookup(router: Router, key: RtKey) returns (e: Rtable?)
    requires router.Valid()
    ensures router.Valid()
    ensures e != null ==> e in Entries(router.cache.chains) && e.key == key
    ensures forall x :: x in Entries(router.cache.chains) && x.key == key ==> x == e
  {
    hide Entries, Chained, Filed, Cache.AllChained, Bucket;
    var cache := router.cache;
    var prev, cur, i := cache.Find(Bucket(key, cache.table.Length), key);
    MembersAreEntries(cache.chains, Bucket(key, cache.table.Length));
    e := cur;
    OneHolder(cache.chains, key);
  }

  /** ip_rt_put: a packet or a socket lets go of its route. */
  method Release(router: Router, key: RtKey)
    requires router.Valid()
    modifies Entries(router.cache.chains)`refcnt
    ensures router.Valid()
    ensures forall x :: x in Entries(router.cache.chains) ==>
      x.refcnt == if x.key == key && old(x.refcnt) > 0 then old(x.refcnt) - 1 else old(x.refcnt)
  {
    hide Entries, Chained, Filed, Cache.AllChained;
    EntriesExist(router.cache.chains);
    var e := Lookup(router, key);
    if e != null && e.refcnt > 0 {
      e.refcnt := e.refcnt - 1;
    }
  }

  /** dst_set_expires, at a failure of the link or a change of the path's MTU */
  method SetExpires(router: Router, key: RtKey, at: nat)
    requires router.Valid()
    modifies Entries(router.cache.chains)`expires
    ensures router.Valid()
    ensures forall x :: x in Entries(router.cache.chains) ==> x.expires == if x.key == key then at else old(x.expires)
  {
    hide Entries, Chained, Filed, Cache.AllChained;
    EntriesExist(router.cache.chains);
    var e := Lookup(router, key);
    if e != null {
      e.expires := at;
    }
  }

  /** ipv4_negative_advice, on a route its holder is not content with */
  method Advise(router: Router, key: RtKey, obsolete: bool)
    requires router.Valid() && Coherent(router.cache.chains, router.fib)
    modifies router.cache`chains, router.cache.table, Entries(router.cache.chains)
    ensures router.Valid() && Coherent(router.cache.chains, router.fib)
    ensures Entries(router.cache.chains) <= old(Entries(router.cache.chains))
  {
    hide Entries, Chained, Filed, Cache.AllChained, Coherent, Bucket, HashCode;
    EntriesExist(router.cache.chains);
    var e := Lookup(router, key);
    if e != null && e.refcnt > 0 {
      ghost var before: seq<seq<Rtable>> := router.cache.chains;
      var _ := router.NegativeAdvice(e, obsolete);
      CoherentSubset(before, router.cache.chains, router.fib);
    }
  }

  method Collect(router: Router, now: nat, env: Surroundings)
    requires router.Valid() && Coherent(router.cache.chains, router.fib) && router.collector.lastGc <= now
    modifies router.collector, router.cache`chains, router.cache.table, Entries(router.cache.chains)
    ensures router.Valid() && Coherent(router.cache.chains, router.fib) && router.collector.lastGc <= now
    ensures Entries(router.cache.chains) <= old(Entries(router.cache.chains))
  {
    hide Entries, Chained, Filed, Cache.AllChained, Coherent, Thinned, AllThinned, Total, Goal, RoundsRun, Ends, Halved, StandsStill, NoneOverdue;
    ghost var before: seq<seq<Rtable>>, idle: set<Rtable> := router.cache.chains, Idle(router.cache.chains);
    EntriesExist(before);
    var ret, outcome;
    ghost var goal, tables;
    ret, outcome, goal, tables := router.collector.GarbageCollect(now, env.softirq, env.seen);
    ThinnedEntries(before, router.cache.chains, idle);
    CoherentSubset(before, router.cache.chains, router.fib);
  }

  method CheckExpiry(router: Router, now: nat, passes: nat -> nat)
    requires !StandsStill(passes) && router.Valid() && Coherent(router.cache.chains, router.fib)
    modifies router.collector`sweepRover, router.cache`chains, router.cache.table, Entries(router.cache.chains)
    ensures router.Valid() && Coherent(router.cache.chains, router.fib)
    ensures Entries(router.cache.chains) <= old(Entries(router.cache.chains))
  {
    hide Entries, Chained, Filed, Cache.AllChained, Coherent, Thinned, AllThinned, Total, ExpiredSoFar, StandsStill;
    ghost var before: seq<seq<Rtable>>, stale: set<Rtable> := router.cache.chains, Stale(router.cache.chains, now);
    EntriesExist(before);
    ghost var visited := router.collector.CheckExpire(now, passes);
    ThinnedEntries(before, router.cache.chains, stale);
    CoherentSubset(before, router.cache.chains, router.fib);
  }

  method RequestFlush(router: Router, flusher: FlushTimer.Flusher, delay: int, softirq: bool, now: nat)
    requires router.Valid() && Coherent(router.cache.chains, router.fib) && flusher.cache == router.cache
    modifies flusher, router.cache`chains, router.cache.table
    ensures router.Valid() && Coherent(router.cache.chains, router.fib)
    ensures Entries(router.cache.chains) <= old(Entries(router.cache.chains))
  {
    hide Entries, Chained, Filed, Cache.AllChained, Coherent;
    ghost var before: seq<seq<Rtable>> := router.cache.chains;
    EntriesExist(before);
    flusher.CacheFlush(delay, !softirq, now);
    CoherentSubset(before, router.cache.chains, router.fib);
  }

  /** The flush timer, if it is pending, fires when its time has come. */
  method FireTimer(router: Router, flusher: FlushTimer.Flusher, now: nat) returns (later: nat)
    requires router.Valid() && Coherent(router.cache.chains, router.fib) && flusher.cache == router.cache
    modifies flusher, router.cache`chains, router.cache.table
    ensures router.Valid() && Coherent(router.cache.chains, router.fib) && now <= later
    ensures Entries(router.cache.chains) <= old(Entries(router.cache.chains))
  {
    hide Entries, Chained, Filed, Cache.AllChained, Coherent;
    later := now;
    if flusher.timer.Some? {
      later := if flusher.timer.value > now then flusher.timer.value else now;
      ghost var before: seq<seq<Rtable>> := router.cache.chains;
      EntriesExist(before);
      flusher.Fire(later);
      CoherentSubset(before, router.cache.chains, router.fib);
    }
  }

  /** Nobody else in the table has a key, and nobody at all if nobody in its bucket has. */
  lemma OneHolder(chains: seq<seq<Rtable>>, key: RtKey)
    requires Filed(chains)
    ensures forall x, y :: x in Entries(chains) && y in Entries(chains) && x.key == key == y.key ==> x == y
    ensures !KeyIn(chains[Bucket(key, |chains|)], key) ==> forall x :: x in Entries(chains) ==> x.key != key
  {
    hide Bucket;
    forall x | x in Entries(chains) && x.key == key ensures KeyIn(chains[Bucket(key, |chains|)], key) {
      EntryPlace(chains, x);
    }
    forall x, y | x in Entries(chains) && y in Entries(chains) && x.key == key == y.key ensures x == y {
      var a, i :| 0 <= a < |chains| && 0 <= i < |chains[a]| && chains[a][i] == x;
      var b, j :| 0 <= b < |chains| && 0 <= j < |chains[b]| && chains[b][j] == y;
      NoKeyTwice(chains, a, i, b, j);
    }
  }

  /** Two packets share an entry exactly if they agree on both addresses, the interface, the
      mark, and the masked bits of tos. */
  lemma SharedEntry(chains: seq<seq<Rtable>>, p: Event, x: Rtable, q: Event, y: Rtable)
    requires Filed(chains) && x in Entries(chains) && y in Entries(chains) && p.Input? && q.Input?
    requires x.key == RtKey(p.daddr, p.saddr, p.iif, 0, p.tos & 0x1C, p.fwmark)
    requires y.key == RtKey(q.daddr, q.saddr, q.iif, 0, q.tos & 0x1C, q.fwmark)
    ensures x == y <==>
      && p.daddr == q.daddr && p.saddr == q.saddr && p.iif == q.iif && p.fwmark == q.fwmark
      && p.tos & 0x1C == q.tos & 0x1C
  {
    hide Entries, Filed, Bucket;
    OneHolder(chains, x.key);
  }

  lemma CoherentSubset(before: seq<seq<Rtable>>, after: seq<seq<Rtable>>, fib: RtKey -> Answer)
    requires Coherent(before, fib) && Entries(after) <= Entries(before)
    ensures Coherent(after, fib)
  {
    forall b, i | 0 <= b < |after| && 0 <= i < |after[b]| && after[b][i].key.iif != 0
      ensures fib(after[b][i].key) == Answer(after[b][i].route)
    {
      assert after[b][i] in Entries(before);
    }
  }

  /** The end of ip_route_output_slow: the route it found is interned. */
  method Cached(router: Router, key: RtKey, route: Route, now: nat, env: Surroundings) returns (err: int, later: nat)
    requires router.Valid() && Coherent(router.cache.chains, router.fib) && key.iif == 0
    requires router.collector.lastGc <= now
    modifies router.collector`expire, router.collector`lastGc, router.collector`rover, router.collector`equilibrium
    modifies router.collector`gcElasticity, router.collector`gcMinInterval
    modifies router.cache`chains, router.cache.table, Entries(router.cache.chains)
    ensures router.Valid() && Coherent(router.cache.chains, router.fib)
    ensures router.collector.lastGc <= later && now <= later
    ensures err == 0 ==> exists x :: x in Entries(router.cache.chains) && x.key == key
    ensures forall x :: x in Entries(router.cache.chains) && x !in old(Entries(router.cache.chains)) ==> fresh(x)
  {
    hide Entries, Chained, Filed, Without, Cache.AllChained, Bucket, Thinned, AllThinned, Interned, Coherent;
    var cache := router.cache;
    EntriesExist(cache.chains);
    ghost var before: seq<seq<Rtable>>, idle: set<Rtable> := cache.chains, Idle(cache.chains);
    var rt := new Rtable(key, route, 0, now);
    var res;
    ghost var mid: seq<seq<Rtable>>, at;
    err, res, later, mid, at := router.Intern(Bucket(key, cache.table.Length), rt, now, env);
    InternedEntries(before, mid, cache.chains, idle, Bucket(key, cache.table.Length), at, rt, res, err);
    CoherentSmaller(before, cache.chains, rt, router.fib);
  }

  /** Any run: every lookup is answered as the tables then in force would answer it. */
  method Serve(router: Router, flusher: FlushTimer.Flusher, events: seq<Event>, moments: nat -> Moment, start: nat)
    returns (answers: seq<Option<Route>>)
    requires router.Valid() && Coherent(router.cache.chains, router.fib)
    requires router.collector.lastGc <= start && flusher.cache == router.cache
    requires forall n :: 0 <= n < |events| ==> Sensible(events[n], moments(n))
    modifies router`fib, router.collector, flusher, router.cache`chains, router.cache.table, Entries(router.cache.chains)
    ensures router.Valid() && Coherent(router.cache.chains, router.fib)
    ensures |answers| == |events|
    ensures forall n :: 0 <= n < |events| ==> Agrees(FibAfter(old(router.fib), events, n), events[n], moments(n).env, answers[n])
  {
    hide Entries, Chained, Filed, Cache.AllChained, Agrees, Coherent, Sensible, FibAfter;
    answers := [];
    NextFib(router.fib, events, 0);
    var now := start;
    EntriesExist(router.cache.chains);
    for n := 0 to |events|
      invariant router.Valid() && Coherent(router.cache.chains, router.fib)
      invariant router.collector.lastGc <= now
      invariant router.fib == FibAfter(old(router.fib), events, n)
      invariant forall x :: x in Entries(router.cache.chains) && x !in old(Entries(router.cache.chains)) ==> fresh(x)
      invariant |answers| == n
      invariant forall m :: 0 <= m < n ==> Agrees(FibAfter(old(router.fib), events, m), events[m], moments(m).env, answers[m])
    {
      EntriesExist(router.cache.chains);
      NextFib(old(router.fib), events, n);
      var answer;
      answer, now := Handle(router, flusher, events[n], now + moments(n).wait, moments(n));
      answers := answers + [answer];
    }
  }
}
