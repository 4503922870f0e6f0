/** Interning, deleting, redirecting and looking up routes. */
module RouteLookup {
  import opened RouteEntries
  import opened RouteChains
  import opened RouteCache
  import opened RouteCollector
  import FlushTimer

  const ENOBUFS := 105

  /** What the slow path says about a key: the route to cache, or a refusal that is not cached. */
  datatype Answer = Answer(route: Route) | Refused(err: Errno)

  type Errno = e: int | e < 0 witness -1

  /** What others decide while a route is interned: the outcome of binding its neighbour at
      each try, when the collector runs in between, and what that reads. */
  datatype Surroundings = Surroundings(softirq: bool, bind: nat -> int, wait: nat, seen: Readings)

  /** Every input route cached is the one the slow path would give. */
  ghost predicate Coherent(chains: seq<seq<Rtable>>, fib: RtKey -> Answer) {
    forall b, i :: 0 <= b < |chains| && 0 <= i < |chains[b]| && chains[b][i].key.iif != 0 ==>
      fib(chains[b][i].key) == Answer(chains[b][i].route)
  }

  ghost predicate KeyIn(c: seq<Rtable>, key: RtKey) {
    exists i :: 0 <= i < |c| && c[i].key == key
  }

  lemma HasKey(c: seq<Rtable>, i: nat)
    requires i < |c|
    ensures KeyIn(c, c[i].key)
  {
  }

  lemma NoKey(c: seq<Rtable>, key: RtKey)
    requires forall i :: 0 <= i < |c| ==> c[i].key != key
    ensures !KeyIn(c, key)
  {
  }

  lemma CoherentSmaller(before: seq<seq<Rtable>>, after: seq<seq<Rtable>>, rt: Rtable, fib: RtKey -> Answer)
    requires Coherent(before, fib) && Entries(after) <= Entries(before) + {rt}
    requires rt.key.iif != 0 ==> fib(rt.key) == Answer(rt.route)
    ensures Coherent(after, fib)
  {
    forall b, i | 0 <= b < |after| && 0 <= i < |after[b]| && after[b][i].key.iif != 0
      ensures fib(after[b][i].key) == Answer(after[b][i].route)
    {
      assert after[b][i] in Entries(after);
    }
  }

  /** What rt_intern_hash made of the table `mid`: untouched on failure, else `res` in front */
  ghost predicate Interned(mid: seq<seq<Rtable>>, after: seq<seq<Rtable>>, hash: nat, at: nat,
                           rt: Rtable, res: Rtable, err: int) {
    && hash < |mid|
    && (res != rt ==> at < |mid[hash]| && res == mid[hash][at] && res.key == rt.key)
    && after ==
      if res != rt then mid[hash := [res] + Without(mid[hash], at)]
      else if err == 0 then mid[hash := [rt] + mid[hash]]
      else mid
  }

  /** Interning leaves only old entries and the new one, and what it found is in the table. */
  lemma InternedEntries(before: seq<seq<Rtable>>, mid: seq<seq<Rtable>>, after: seq<seq<Rtable>>,
                        idle: set<Rtable>, hash: nat, at: nat, rt: Rtable, res: Rtable, err: int)
    requires AllThinned(before, mid, idle) && Interned(mid, after, hash, at, rt, res, err)
    ensures Entries(after) <= Entries(before) + {rt}
    ensures res != rt || err == 0 ==> res in Entries(after) && after[hash] != [] && after[hash][0] == res
    ensures res.key == rt.key && (res != rt ==> res in Entries(before))
    ensures (res != rt || err != 0) && rt !in Entries(before) ==> rt !in Entries(after)
    ensures forall e :: e in Entries(before) && e !in idle ==> e in Entries(after)
    ensures mid == before ==> Entries(after) == Entries(before) + (if res == rt && err != 0 then {} else {res})
  {
    hide Thinned, AllThinned, Without;
    ThinnedEntries(before, mid, idle);
    if res != rt {
      WithoutMembers(mid[hash], at);
    }
    if res != rt || err == 0 {
      assert after[hash][0] in Entries(after);
    }
    forall e | e in Entries(mid) ensures e in Entries(after) {
      var b, i :| 0 <= b < |mid| && 0 <= i < |mid[b]| && mid[b][i] == e;
      assert e in after[b];
      MembersAreEntries(after, b);
    }
    ThinnedStay(before, mid, idle);
    forall b, i | 0 <= b < |after| && 0 <= i < |after[b]|
      ensures after[b][i] in if res == rt && err == 0 then Entries(mid) + {rt} else Entries(mid)
    {
      assert after[b][i] in after[b];
      MembersAreEntries(mid, b);
    }
  }

  lemma ThinnedStay(before: seq<seq<Rtable>>, after: seq<seq<Rtable>>, idle: set<Rtable>)
    requires AllThinned(before, after, idle)
    ensures forall e :: e in Entries(before) && e !in idle ==> e in Entries(after)
  {
    hide Thinned;
    forall b, i | 0 <= b < |before| && 0 <= i < |before[b]| && before[b][i] !in idle ensures before[b][i] in Entries(after) {
      ThinnedMembers(before[b], after[b], idle);
      assert before[b][i] in after[b];
      MembersAreEntries(after, b);
    }
  }

  /** Thinning brings in no new key. */
  lemma ThinnedKeys(before: seq<Rtable>, after: seq<Rtable>, idle: set<Rtable>, key: RtKey)
    requires Thinned(before, after, idle) && !KeyIn(before, key)
    ensures !KeyIn(after, key)
  {
    hide Thinned;
    ThinnedMembers(before, after, idle);
    forall i | 0 <= i < |after| ensures after[i].key != key {
      assert after[i] in before;
    }
  }

  /** An entry is in the bucket of its key and nowhere else. */
  lemma EntryPlace(chains: seq<seq<Rtable>>, e: Rtable)
    requires Filed(chains)
    ensures e in Entries(chains) ==> e in chains[Bucket(e.key, |chains|)]
    ensures forall b :: 0 <= b < |chains| && e in chains[b] ==> b == Bucket(e.key, |chains|) && e in Entries(chains)
  {
    hide Bucket;
    if e in Entries(chains) {
      var b, i :| 0 <= b < |chains| && 0 <= i < |chains[b]| && chains[b][i] == e;
      assert Bucket(chains[b][i].key, |chains|) == b;
    }
    forall b | 0 <= b < |chains| && e in chains[b] ensures b == Bucket(e.key, |chains|) && e in Entries(chains) {
      var i :| 0 <= i < |chains[b]| && chains[b][i] == e;
      assert Bucket(chains[b][i].key, |chains|) == b;
    }
  }

  /** Unlinking takes one entry out of the table, with its key. */
  lemma EntryGone(chains: seq<seq<Rtable>>, b: nat, i: nat)
    requires Filed(chains) && b < |chains| && i < |chains[b]|
    ensures var after := chains[b := Without(chains[b], i)];
      Entries(after) == Entries(chains) - {chains[b][i]} && !KeyIn(after[b], chains[b][i].key)
  {
    hide Bucket, Without;
    var after: seq<seq<Rtable>>, gone := chains[b := Without(chains[b], i)], chains[b][i];
    KeyGoneWithout(chains, b, i);
    Apart(chains, b);
    WithoutMembers(chains[b], i);
    forall e | e in Entries(after) ensures e in Entries(chains) && e != gone {
      var a, j :| 0 <= a < |after| && 0 <= j < |after[a]| && after[a][j] == e;
      if a != b {
        assert e in chains[a] && gone in chains[b];
        assert chains[a][j] in Entries(chains);
      } else {
        assert e in after[b];
      }
    }
    forall e | e in Entries(chains) && e != gone ensures e in Entries(after) {
      var a, j :| 0 <= a < |chains| && 0 <= j < |chains[a]| && chains[a][j] == e;
      if a != b {
        assert after[a][j] == e;
      } else {
        assert e in after[b];
      }
    }
  }

  lemma WithoutMembers(c: seq<Rtable>, i: nat)
    requires i < |c|
    ensures forall e :: e in Without(c, i) ==> e in c
    ensures forall e :: e in c && e != c[i] ==> e in Without(c, i)
  {
    assert c == c[..i] + [c[i]] + c[i + 1..];
  }

  /** The bucket of a key: by interface in for input keys, by interface out for output keys */
  lemma BucketMeans(key: RtKey, size: nat)
    requires size > 0
    ensures key.iif != 0 ==> Bucket(key, size) == HashCode(key.dst, key.src ^ (key.iif << 5), key.tos, size)
    ensures key.iif == 0 ==> Bucket(key, size) == HashCode(key.dst, key.src ^ (key.oif << 5), key.tos, size)
  {
    hide HashCode;
  }

  /** A hash by hand, of 10.0.0.1 and 8.8.8.8 as numbers */
  lemma HashSample()
    ensures HashCode(0x0A000001, 0x08080808, 0x10, 0x1_0000) == 0xA8A0
  {
  }

  /** For an input route the bucket by interface out, where ipv4_negative_advice looks whatever
      the key, can be the wrong one. */
  lemma AdviceCanMiss()
    ensures var key := RtKey(0, 0, 1, 0, 0, 0);
      && HashCode(key.dst, key.src ^ (key.oif << 5), key.tos, 256) == 0
      && Bucket(key, 256) == 32
  {
  }

  class Router {
    const collector: Collector
    const cache: Cache
    var fib: RtKey -> Answer

    constructor (collector: Collector, fib: RtKey -> Answer)
      requires collector.cache.Valid() && forall b :: 0 <= b < |collector.cache.chains| ==> collector.cache.chains[b] == []
      ensures Valid() && cache == collector.cache && this.collector == collector && this.fib == fib
      ensures Coherent(cache.chains, fib)
    {
      this.collector, this.cache, this.fib := collector, collector.cache, fib;
    }

    ghost predicate Valid()
      reads this, cache, cache.table, Entries(cache.chains)`next
    {
      collector.cache == cache && cache.Valid()
    }

    /** The collector run hard once, because the neighbour table is full: as if every bucket
        should hold one entry, and however short ago it ran. */
    method Shrink(now: nat, seen: Readings) returns (outcome: Outcome, ghost tables: seq<seq<seq<Rtable>>>)
      requires Valid() && collector.lastGc <= now
      modifies collector`expire, collector`lastGc, collector`rover, collector`equilibrium
      modifies collector`gcElasticity, collector`gcMinInterval
      modifies cache`chains, cache.table, Entries(cache.chains)`next
      ensures Valid() && AllThinned(old(cache.chains), cache.chains, old(Idle(cache.chains)))
      ensures |cache.chains| == |old(cache.chains)| == cache.table.Length
      ensures
        var size := |cache.chains|;
        var bar := if old(collector.equilibrium) < collector.gcThresh then collector.gcThresh else old(collector.equilibrium);
        var goal := Goal(seen, size, size, bar);
        if goal <= 0 then outcome == NothingToDo && cache.chains == old(cache.chains)
        else
          && outcome in {GoalMet, Room, Overflow}
          && RoundsRun(tables, old(cache.chains), cache.chains, old(collector.expire), goal, now,
                       StandsStill(seen.passes), outcome == GoalMet)
      ensures collector.lastGc == now
      ensures collector.gcElasticity == old(collector.gcElasticity)
      ensures collector.gcMinInterval == old(collector.gcMinInterval)
    {
      hide Filed, Entries, Chained, Thinned, Total, Goal, RoundsRun, AllEntries, StandsStill, Halved, NoneOverdue, Ends;
      EntriesExist(cache.chains);
      var savedElasticity, savedInterval := collector.gcElasticity, collector.gcMinInterval;
      collector.gcElasticity, collector.gcMinInterval := 1, 0;
      ghost var goal;
      var ret;
      ret, outcome, goal, tables := collector.GarbageCollect(now, false, seen);
      TablesExist(tables);
      collector.gcMinInterval, collector.gcElasticity := savedInterval, savedElasticity;
    }

    /** One try to intern: the locked part of rt_intern_hash; `bound` is what binding the
        neighbour returns. */
    method Attempt(hash: nat, rt: Rtable, now: nat, bound: int) returns (err: int, res: Rtable, ghost at: nat)
      requires Valid() && hash < cache.table.Length && Bucket(rt.key, |cache.chains|) == hash
      requires rt !in Entries(cache.chains)
      modifies cache`chains, cache.table, Entries(cache.chains), rt`next
      ensures Valid() && hash < |old(cache.chains)| == |cache.chains|
      ensures res != rt ==>
        && err == 0 && at < |old(cache.chains)[hash]| && res == old(cache.chains)[hash][at] && res.key == rt.key
        && cache.chains == old(cache.chains)[hash := [res] + Without(old(cache.chains)[hash], at)]
        && res.refcnt == old(res.refcnt) + 1 && res.uses == old(res.uses) + 1 && res.lastuse == now
      ensures res == rt ==> !KeyIn(old(cache.chains)[hash], rt.key)
      ensures res == rt && err == 0 ==>
        cache.chains == old(cache.chains)[hash := [rt] + old(cache.chains)[hash]]
      ensures res == rt ==> err == if rt.route.unicast || rt.key.iif == 0 then bound else 0
      ensures err != 0 ==> cache.chains == old(cache.chains)
      ensures forall e :: e in old(Entries(cache.chains)) && (e != res || res == rt) ==>
        e.refcnt == old(e.refcnt) && e.uses == old(e.uses) && e.lastuse == old(e.lastuse) && e.expires == old(e.expires)
    {
      hide Filed, Entries, Chained, Bucket, Without, Cache.AllChained;
      MembersAreEntries(cache.chains, hash);
      EntriesExist(cache.chains);
      var prev, cur, i := cache.Find(hash, rt.key);
      if cur != null {
        cache.MoveToFront(hash, prev, cur, i);
        EntriesExist(cache.chains);
        TakeHold(cur, now);
        return 0, cur, i;
      }
      err, res, at := 0, rt, 0;
      if rt.route.unicast || rt.key.iif == 0 {
        err := bound; // arp_bind_neighbour
      }
      if err == 0 {
        cache.PushFront(hash, rt);
      }
    }

    /** A hit: the entry is used, held and stamped. */
    method TakeHold(e: Rtable, now: nat)
      modifies e`uses, e`refcnt, e`lastuse
      ensures e.refcnt == old(e.refcnt) + 1 && e.uses == old(e.uses) + 1 && e.lastuse == now
    {
      e.lastuse, e.refcnt, e.uses := now, e.refcnt + 1, e.uses + 1;
    }

    /** rt_intern_hash: an entry with the same key is moved to the front and taken instead of
        rt; otherwise rt becomes the first of its bucket, unless its neighbour cannot be bound.
        Outside interrupts a full neighbour table makes the collector run, and one more try;
        `mid` is the table after that. */
    method Intern(hash: nat, rt: Rtable, now: nat, env: Surroundings)
      returns (err: int, res: Rtable, later: nat, ghost mid: seq<seq<Rtable>>, ghost at: nat)
      requires Valid() && hash < cache.table.Length && Bucket(rt.key, |cache.chains|) == hash
      requires rt !in Entries(cache.chains) && rt.refcnt > 0 && collector.lastGc <= now
      modifies collector`expire, collector`lastGc, collector`rover, collector`equilibrium
      modifies collector`gcElasticity, collector`gcMinInterval
      modifies cache`chains, cache.table, Entries(cache.chains), rt
      ensures Valid() && AllThinned(old(cache.chains), mid, old(Idle(cache.chains)))
      ensures forall e :: e in old(Entries(cache.chains)) && e != res ==> e.refcnt == old(e.refcnt)
      ensures forall e :: e in old(Entries(cache.chains) + {rt}) && (e != res || res == rt) ==>
        e.lastuse == old(e.lastuse) && e.uses == old(e.uses) && e.expires == old(e.expires)
      ensures hash < |mid| == |old(cache.chains)| && (res != rt <==> KeyIn(old(cache.chains)[hash], rt.key))
      ensures res != rt ==>
        && err == 0 && res in old(Entries(cache.chains))
        && res.refcnt == old(res.refcnt) + 1 && res.uses == old(res.uses) + 1 && res.lastuse == now
      ensures res == rt ==> !KeyIn(mid[hash], rt.key)
      ensures
        var binds := res == rt && (rt.route.unicast || rt.key.iif == 0);
        var again := binds && env.bind(0) == -105 && !env.softirq;
        && err == (if again then env.bind(1) else if binds then env.bind(0) else 0)
        && later == (if again then now + env.wait else now)
        && (if again then collector.lastGc == later
            else mid == old(cache.chains) && collector.lastGc == old(collector.lastGc))
      ensures rt.refcnt == if err == 0 && res == rt then old(rt.refcnt) else old(rt.refcnt) - 1
      ensures collector.gcElasticity == old(collector.gcElasticity)
      ensures collector.gcMinInterval == old(collector.gcMinInterval)
      ensures |mid| == |cache.chains| && Interned(mid, cache.chains, hash, at, rt, res, err)
    {
      hide Filed, Entries, Chained, Thinned, Bucket, Without, Cache.AllChained, Goal, RoundsRun, StandsStill, KeyIn;
      ghost var before: seq<seq<Rtable>>, idle: set<Rtable> := cache.chains, Idle(cache.chains);
      EntriesExist(before);
      AllThinnedSame(before, idle);
      var attempts: nat := if env.softirq then 0 else 1;
      var tries: nat := 0;
      later := now;
      while true
        invariant tries <= 1 && attempts == (if env.softirq then 0 else 1 - tries) && Valid() && AllThinned(before, cache.chains, idle) && idle == Idle(before)
        invariant tries == 0 ==> cache.chains == before && later == now && collector.lastGc == old(collector.lastGc)
        invariant tries == 1 ==>
          && !KeyIn(before[hash], rt.key) && (rt.route.unicast || rt.key.iif == 0)
          && env.bind(0) == -105 && !env.softirq && collector.lastGc == later == now + env.wait
        invariant collector.gcElasticity == old(collector.gcElasticity)
        invariant collector.gcMinInterval == old(collector.gcMinInterval)
        invariant forall e :: e in Entries(before) + {rt} ==>
          e.refcnt == old(e.refcnt) && e.uses == old(e.uses) && e.lastuse == old(e.lastuse) && e.expires == old(e.expires)
        invariant |cache.chains| == |before|
        decreases attempts
      {
        mid := cache.chains;
        ThinnedEntries(before, mid, idle);
        MembersAreEntries(mid, hash);
        if tries == 1 {
          ThinnedKeys(before[hash], mid[hash], idle, rt.key);
        }
        err, res, at := Attempt(hash, rt, now, env.bind(tries));
        if res != rt {
          HasKey(mid[hash], at);
        }
        if err != -ENOBUFS || attempts == 0 {
          break;
        }
        attempts, tries := attempts - 1, tries + 1;
        later := now + env.wait;
        ghost var outcome, tables := Shrink(later, env.seen);
        ThinnedAgain(before, mid, cache.chains, idle);
      }
      if err != 0 || res != rt {
        rt.refcnt := rt.refcnt - 1;
      }
    }

    /** rt_del: the entry is released, and unlinked if it is in this bucket. */
    method RtDel(hash: nat, rt: Rtable) returns (ghost at: nat)
      requires Valid() && hash < cache.table.Length && rt.refcnt > 0
      modifies cache`chains, cache.table, Entries(cache.chains)`next, rt`refcnt
      ensures Valid() && hash < |old(cache.chains)| && rt.refcnt == old(rt.refcnt) - 1
      ensures if rt in old(cache.chains)[hash]
        then at < |old(cache.chains)[hash]| && old(cache.chains)[hash][at] == rt
          && cache.chains == old(cache.chains)[hash := Without(old(cache.chains)[hash], at)]
        else cache.chains == old(cache.chains)
    {
      hide Filed, Entries, Chained, Without, Cache.AllChained;
      MembersAreEntries(cache.chains, hash);
      EntriesExist(cache.chains);
      rt.refcnt := rt.refcnt - 1;
      var found, prev, i := cache.FindEntry(hash, rt);
      at := i;
      if found {
        cache.Unlink(hash, prev, rt, i);
      }
    }

    /** ipv4_negative_advice: a redirected or expiring route is given up. It leaves the cache
        exactly if it is looked for in its own bucket, as every output route is. */
    method NegativeAdvice(rt: Rtable, obsolete: bool) returns (kept: bool)
      requires Valid() && rt.refcnt > 0
      modifies cache`chains, cache.table, Entries(cache.chains)`next, rt`refcnt
      ensures Valid() && 0 < |cache.chains| == |old(cache.chains)|
      ensures kept == (!obsolete && !rt.route.redirected && rt.expires == 0)
      ensures rt.refcnt == if kept then old(rt.refcnt) else old(rt.refcnt) - 1
      ensures Entries(cache.chains) ==
        if kept || obsolete
           || HashCode(rt.key.dst, rt.key.src ^ (rt.key.oif << 5), rt.key.tos, |cache.chains|) != Bucket(rt.key, |cache.chains|)
        then old(Entries(cache.chains)) else old(Entries(cache.chains)) - {rt}
    {
      hide Entries, Chained, Filed, Without, Cache.AllChained, Bucket, HashCode;
      if obsolete {
        rt.refcnt := rt.refcnt - 1;
        return false;
      }
      if rt.route.redirected || rt.expires != 0 {
        EntryPlace(cache.chains, rt);
        var hash := HashCode(rt.key.dst, rt.key.src ^ (rt.key.oif << 5), rt.key.tos, cache.table.Length);
        ghost var was: seq<seq<Rtable>> := cache.chains;
        ghost var at := RtDel(hash, rt);
        if rt in was[hash] {
          EntryGone(was, hash, at);
        }
        return false;
      }
      kept := true;
    }

    /** ip_route_input: a route from the cache, or from the slow path and then cached. Either
        way it is the one the slow path gives for the packet's addresses, interface, mark and
        masked tos; only a refusal or an unreachable neighbour makes it fail. */
    method RouteInput(daddr: bv32, saddr: bv32, tos: bv8, iif: bv32, fwmark: bv32, now: nat, env: Surroundings)
      returns (err: int, res: Rtable?, later: nat)
      requires Valid() && Coherent(cache.chains, fib) && iif != 0 && collector.lastGc <= now
      modifies collector`expire, collector`lastGc, collector`rover, collector`equilibrium
      modifies collector`gcElasticity, collector`gcMinInterval
      modifies cache`chains, cache.table, Entries(cache.chains)
      ensures Valid() && Coherent(cache.chains, fib) && 0 < |cache.chains| == |old(cache.chains)|
      ensures err == 0 ==>
        && res != null && res.key.dst == daddr && res.key.src == saddr && res.key.iif == iif && res.key.oif == 0
        && res.key.tos == tos & 0x1C && res.key.fwmark == fwmark
        && fib(res.key) == Answer(res.route) && res in Entries(cache.chains)
      ensures err != 0 ==> res == null
      ensures
        var key := RtKey(daddr, saddr, iif, 0, tos & 0x1C, fwmark);
        var bucket := old(cache.chains)[Bucket(key, |cache.chains|)];
        if KeyIn(bucket, key) then
          && err == 0 && cache.chains == old(cache.chains) && later == now
          && res in old(Entries(cache.chains)) && res.lastuse == now
          && res.refcnt == old(res.refcnt) + 1 && res.uses == old(res.uses) + 1
        else if fib(key).Refused? then err == fib(key).err && cache.chains == old(cache.chains)
        else
          && err == (if !fib(key).route.unicast then 0
                     else if env.bind(0) == -105 && !env.softirq then env.bind(1) else env.bind(0))
          && (err == 0 ==>
                && fresh(res) && res.refcnt == 1 && res.lastuse == now && res.expires == 0
                && cache.chains[Bucket(key, |cache.chains|)] != [] && cache.chains[Bucket(key, |cache.chains|)][0] == res)
          && (!fib(key).route.unicast || env.bind(0) != -105 || env.softirq ==>
                Entries(cache.chains) == old(Entries(cache.chains)) + (if err == 0 then {res} else {}))
      ensures forall e :: e in old(Entries(cache.chains)) && old(e.refcnt) > 0 ==>
        e in Entries(cache.chains) && (e != res ==> e.refcnt == old(e.refcnt))
      ensures forall e :: e in Entries(cache.chains) && e !in old(Entries(cache.chains)) ==> e == res && fresh(e)
      ensures collector.lastGc <= later && now <= later
    {
      hide Entries, Chained, Filed, Without, Cache.AllChained, Cache.Valid, Bucket, Thinned, AllThinned, Interned, KeyIn;
      var key := RtKey(daddr, saddr, iif, 0, tos & TOS_MASK, fwmark);
      cache.HasBuckets();
      var hash := Bucket(key, cache.table.Length);
      cache.ValidMembers(hash);
      EntriesExist(cache.chains);
      ghost var before: seq<seq<Rtable>> := cache.chains;
      var prev, cur, i := cache.Find(hash, key);
      later := now;
      if cur != null {
        HasKey(before[hash], i);
        assert before[hash][i].key.iif != 0;
        TakeHold(cur, now);
        return 0, cur, now;
      }
      NoKey(before[hash], key);
      match fib(key)
      case Refused(e) => return e, null, now;
      case Answer(route) => err, res, later := CacheInput(hash, key, now, env);
    }

    /** The slow path knows a route, which is cached. */
    method CacheInput(hash: nat, key: RtKey, now: nat, env: Surroundings) returns (err: int, res: Rtable?, later: nat)
      requires Valid() && Coherent(cache.chains, fib) && collector.lastGc <= now && fib(key).Answer? && key.iif != 0
      requires hash < cache.table.Length && Bucket(key, cache.table.Length) == hash && !KeyIn(cache.chains[hash], key)
      modifies collector`expire, collector`lastGc, collector`rover, collector`equilibrium
      modifies collector`gcElasticity, collector`gcMinInterval
      modifies cache`chains, cache.table, Entries(cache.chains)
      ensures Valid() && Coherent(cache.chains, fib) && hash < |cache.chains| == |old(cache.chains)|
      ensures forall e :: e in old(Entries(cache.chains)) ==> e.refcnt == old(e.refcnt) && (e.refcnt > 0 ==> e in Entries(cache.chains))
      ensures forall e :: e in Entries(cache.chains) && e !in old(Entries(cache.chains)) ==> e == res && fresh(e)
      ensures err == if !fib(key).route.unicast then 0
                     else if env.bind(0) == -105 && !env.softirq then env.bind(1) else env.bind(0)
      ensures err != 0 ==> res == null
      ensures err == 0 ==>
        && res != null && fresh(res) && res !in old(Entries(cache.chains))
        && res.key == key && res.route == fib(key).route
        && res.refcnt == 1 && res.lastuse == now && res.expires == 0
        && res in Entries(cache.chains) && cache.chains[hash] != [] && cache.chains[hash][0] == res
      ensures !fib(key).route.unicast || env.bind(0) != -105 || env.softirq ==>
        Entries(cache.chains) == old(Entries(cache.chains)) + if err == 0 then {res} else {}
      ensures collector.lastGc <= later && now <= later
    {
      hide Entries, Chained, Filed, Without, Cache.AllChained, Cache.Valid, Bucket, Thinned, AllThinned, Interned, KeyIn, Coherent;
      cache.HasBuckets();
      EntriesExist(cache.chains);
      ghost var before: seq<seq<Rtable>>, idle: set<Rtable> := cache.chains, Idle(cache.chains);
      var rt := new Rtable(key, fib(key).route, 0, now);
      ghost var mid: seq<seq<Rtable>>, at;
      err, res, later, mid, at := Intern(hash, rt, now, env);
      InternedEntries(before, mid, cache.chains, idle, hash, at, rt, res, err);
      CoherentSmaller(before, cache.chains, rt, fib);
      if err != 0 {
        res := null;
      }
    }

    /** The first output entry of a bucket for these addresses, whatever its firewall mark */
    method FindOutput(b: nat, dst: bv32, src: bv32, oif: bv32, tos: bv8) returns (cur: Rtable?)
      requires Valid() && b < cache.table.Length
      ensures Valid() && b < |cache.chains|
      ensures cur != null ==> cur in cache.chains[b] && OutputFor(cur.key, dst, src, oif, tos)
      ensures cur == null ==> forall e :: e in cache.chains[b] ==> !OutputFor(e.key, dst, src, oif, tos)
    {
      hide Filed, Entries, Chained;
      cur := cache.Head(b);
      ghost var i: nat := 0;
      while cur != null
        invariant Valid() && b < cache.table.Length == |cache.chains| && cache.chains == old(cache.chains)
        invariant i <= |cache.chains[b]| && cur == if i < |cache.chains[b]| then cache.chains[b][i] else null
        invariant forall j :: 0 <= j < i ==> !OutputFor(cache.chains[b][j].key, dst, src, oif, tos)
        decreases |cache.chains[b]| - i
      {
        if !(cur.key.dst != dst || cur.key.src != src || cur.key.tos != tos || cur.key.oif != oif || cur.key.iif != 0) {
          return;
        }
        cur := cache.NextOf(b, cur, i);
        i := i + 1;
      }
    }

    /** One of the four lookups of ip_rt_redirect: `was`, the entry found, is replaced by a copy
        through the new gateway if it fits, is routed through the old gateway, and the copy's
        neighbour is there. If only interning the copy then fails, the route is lost. */
    method RedirectOne(b: nat, m: Message, skey: bv32, ikey: bv32, now: nat, c: Chance)
      returns (step: Step, later: nat, ghost was: Rtable?, ghost copied: Rtable?)
      requires Valid() && b < cache.table.Length && collector.lastGc <= now
      requires b == HashCode(m.daddr, skey ^ (ikey << 5), m.tos, cache.table.Length)
      modifies collector`expire, collector`lastGc, collector`rover, collector`equilibrium
      modifies collector`gcElasticity, collector`gcMinInterval
      modifies cache`chains, cache.table, Entries(cache.chains)
      ensures Valid() && |cache.chains| == |old(cache.chains)| > b
      ensures collector.lastGc <= later && now <= later
      ensures forall e :: e in old(Entries(cache.chains)) ==>
        && e.refcnt == old(e.refcnt) && e.expires == old(e.expires)
        && (e != was && e.refcnt > 0 ==> e in Entries(cache.chains))
      ensures forall e :: e in Entries(cache.chains) && e !in old(Entries(cache.chains)) ==> e == copied && fresh(e)
      ensures was == null ==>
        step == NoEntry && forall e :: e in old(Entries(cache.chains)) ==> !OutputFor(e.key, m.daddr, skey, ikey, m.tos)
      ensures was != null ==>
        && was in old(Entries(cache.chains)) && OutputFor(was.key, m.daddr, skey, ikey, m.tos)
        && step == if !Fits(was, m) then Mismatch
                   else if !c.memory then NoMemory
                   else if !c.bound then NoNeighbour
                   else if (if c.env.bind(0) == -105 && !c.env.softirq then c.env.bind(1) else c.env.bind(0)) == 0
                   then Step.Rerouted else Lost
      ensures step in {NoEntry, Mismatch, NoMemory, NoNeighbour} ==> cache.chains == old(cache.chains)
      ensures step in {Step.Rerouted, Lost} ==> was !in Entries(cache.chains)
      ensures step == Step.Rerouted ==>
        && was != null && copied != null && fresh(copied)
        && copied in Entries(cache.chains) && cache.chains[b] != [] && cache.chains[b][0] == copied
        && copied.key == was.key && copied.route == was.route.(redirected := true, gateway := m.newGw)
        && copied.expires == was.expires && copied.lastuse == now && copied.uses == 1 && copied.refcnt == 0
      ensures LookedUp(old(cache.chains), cache.chains, m, skey, ikey, step, c)
    {
      hide Entries, Chained, Filed, Cache.AllChained, Bucket, HashCode, LookedUp, OutputFor;
      later, was, copied := now, null, null;
      ghost var before: seq<seq<Rtable>> := cache.chains;
      EntriesExist(before);
      MembersAreEntries(cache.chains, b);
      var rth := FindOutput(b, m.daddr, skey, ikey, m.tos);
      if rth == null {
        NotElsewhere(cache.chains, b, m.daddr, skey, ikey, m.tos);
        NoneFound(cache.chains, m, skey, ikey, c);
        step := NoEntry;
        return;
      }
      was := rth;
      EntryPlace(cache.chains, rth);
      if rth.route.dst != m.daddr || rth.route.src != m.saddr || rth.route.error != 0
         || rth.route.gateway != m.oldGw || rth.route.dev != m.dev {
        LeftAlone(cache.chains, m, skey, ikey, rth, Mismatch, c);
        step := Mismatch;
        return;
      }
      step, later, copied := Reroute(b, m, rth, now, c);
      if step == NoMemory || step == NoNeighbour {
        LeftAlone(cache.chains, m, skey, ikey, rth, step, c);
      } else {
        ReplacedBy(before, cache.chains, m, skey, ikey, rth, copied, step, c);
      }
    }

    /** The entry found fits: it is copied, and replaced by the copy. */
    method Reroute(b: nat, m: Message, rth: Rtable, now: nat, c: Chance)
      returns (step: Step, later: nat, ghost copied: Rtable?)
      requires Valid() && b < cache.table.Length && collector.lastGc <= now
      requires rth in Entries(cache.chains) && Bucket(rth.key, cache.table.Length) == b && rth.key.iif == 0
      modifies collector`expire, collector`lastGc, collector`rover, collector`equilibrium
      modifies collector`gcElasticity, collector`gcMinInterval
      modifies cache`chains, cache.table, Entries(cache.chains)
      ensures Valid() && |cache.chains| == |old(cache.chains)| > b
      ensures collector.lastGc <= later && now <= later
      ensures step == if !c.memory then NoMemory
                      else if !c.bound then NoNeighbour
                      else if (if c.env.bind(0) == -105 && !c.env.softirq then c.env.bind(1) else c.env.bind(0)) == 0
                      then Step.Rerouted else Lost
      ensures !c.memory || !c.bound ==> cache.chains == old(cache.chains)
      ensures c.memory && c.bound ==>
        var added := if step == Step.Rerouted then {copied} else {};
        && added <= Entries(cache.chains) <= old(Entries(cache.chains)) - {rth} + added
        && (c.env.bind(0) != -105 || c.env.softirq ==> Entries(cache.chains) == old(Entries(cache.chains)) - {rth} + added)
        && copied != null && fresh(copied) && copied !in old(Entries(cache.chains))
        && copied.key == rth.key && copied.route == rth.route.(redirected := true, gateway := m.newGw)
        && copied.expires == rth.expires && copied.lastuse == now && copied.uses == 1 && copied.refcnt == 0
      ensures step == Step.Rerouted ==> cache.chains[b] != [] && cache.chains[b][0] == copied
      ensures forall e :: e in old(Entries(cache.chains)) ==>
        && e.refcnt == old(e.refcnt) && e.expires == old(e.expires)
        && (e != rth && e.refcnt > 0 ==> e in Entries(cache.chains))
    {
      hide Entries, Chained, Filed, Cache.AllChained, Bucket;
      later, copied := now, null;
      EntriesExist(cache.chains);
      rth.refcnt := rth.refcnt + 1;
      if !c.memory {
        rth.refcnt := rth.refcnt - 1;
        step := NoMemory;
        return;
      }
      var copy := new Rtable(rth.key, rth.route.(redirected := true, gateway := m.newGw), rth.expires, now);
      copy.uses := 1;
      copied := copy;
      if !c.bound {
        rth.refcnt := rth.refcnt - 1;
        step := NoNeighbour;
        return;
      }
      var err;
      err, later := Replace(b, rth, copy, now, c.env);
      step := if err == 0 then Step.Rerouted else Lost;
    }

    /** rt_del, then rt_intern_hash of the copy */
    method Replace(b: nat, rth: Rtable, copy: Rtable, now: nat, env: Surroundings) returns (err: int, later: nat)
      requires Valid() && b < cache.table.Length && collector.lastGc <= now && rth in Entries(cache.chains)
      requires Bucket(rth.key, cache.table.Length) == b && copy.key == rth.key && copy.key.iif == 0
      requires copy !in Entries(cache.chains) && copy.refcnt == 1 && rth.refcnt > 0
      modifies collector`expire, collector`lastGc, collector`rover, collector`equilibrium
      modifies collector`gcElasticity, collector`gcMinInterval
      modifies cache`chains, cache.table, Entries(cache.chains), copy
      ensures Valid() && b < |cache.chains| == |old(cache.chains)|
      ensures collector.lastGc <= later && now <= later
      ensures
        var again := env.bind(0) == -105 && !env.softirq;
        var added := if err == 0 then {copy} else {};
        && err == (if again then env.bind(1) else env.bind(0))
        && Entries(cache.chains) <= old(Entries(cache.chains)) - {rth} + added
        && added <= Entries(cache.chains)
        && (!again ==> Entries(cache.chains) == old(Entries(cache.chains)) - {rth} + added)
      ensures err == 0 ==> cache.chains[b] != [] && cache.chains[b][0] == copy
      ensures copy.refcnt == 0 && copy.expires == old(copy.expires)
      ensures copy.lastuse == old(copy.lastuse) && copy.uses == old(copy.uses)
      ensures rth.refcnt == old(rth.refcnt) - 1
      ensures forall e :: e in old(Entries(cache.chains)) ==>
        && e.expires == old(e.expires) && (e != rth ==> e.refcnt == old(e.refcnt))
        && (e != rth && e.refcnt > 0 ==> e in Entries(cache.chains))
    {
      hide Entries, Chained, Filed, Without, Cache.AllChained, Bucket, Thinned, AllThinned, Interned, KeyIn;
      ghost var was: seq<seq<Rtable>> := cache.chains;
      EntriesExist(was);
      EntryPlace(was, rth);
      ghost var at := RtDel(b, rth);
      EntryGone(was, b, at);
      EntriesExist(cache.chains);
      ghost var before: seq<seq<Rtable>>, idle: set<Rtable> := cache.chains, Idle(cache.chains);
      var res;
      ghost var mid: seq<seq<Rtable>>, place;
      err, res, later, mid, place := Intern(b, copy, now, env);
      InternedEntries(before, mid, cache.chains, idle, b, place, copy, res, err);
      if err == 0 {
        res.refcnt := res.refcnt - 1;
      }
    }

    /** ip_rt_redirect: `trusted` stands for the checks on the device and the new gateway. The
        four lookups are made in turn, for both source keys and both interface keys, unless
        memory runs out; `tables` is the cache before each of them and at the end, and `chances`
        says what befalls each. Only output
        routes through the old gateway are rerouted, and input routes stay coherent. */
    method Redirect(msg: Message, ifindex: bv32, trusted: bool, now: nat, chances: nat -> Chance)
      returns (later: nat, ghost steps: seq<Step>, ghost tables: seq<seq<seq<Rtable>>>)
      requires Valid() && Coherent(cache.chains, fib) && collector.lastGc <= now
      modifies collector`expire, collector`lastGc, collector`rover, collector`equilibrium
      modifies collector`gcElasticity, collector`gcMinInterval
      modifies cache`chains, cache.table, Entries(cache.chains)
      ensures Valid() && Coherent(cache.chains, fib) && |cache.chains| == |old(cache.chains)|
      ensures collector.lastGc <= later && now <= later
      ensures msg.newGw == msg.oldGw || !trusted ==> steps == [] && cache.chains == old(cache.chains)
      ensures var m := msg.(tos := msg.tos & 0x1C);
        && OldOrRerouted(Entries(cache.chains), old(Entries(cache.chains)), m)
        && (msg.newGw != msg.oldGw && trusted ==>
              && Lookups(tables, m, [msg.saddr, 0], [ifindex, 0], steps, chances)
              && tables[0] == old(cache.chains) && tables[|steps|] == cache.chains
              && (|steps| == 4 || (steps != [] && steps[|steps| - 1] == NoMemory))
              && forall n :: 0 <= n < |steps| - 1 ==> steps[n] != NoMemory)
      ensures forall e :: e in Entries(cache.chains) && e !in old(Entries(cache.chains)) ==> fresh(e)
    {
      hide Entries, Chained, Filed, Without, Cache.AllChained, Bucket, HashCode, Coherent, OldOrRerouted, LookedUp, Lookups;
      var m := msg.(tos := msg.tos & TOS_MASK);
      NoneRerouted(Entries(cache.chains), m);
      later, steps, tables := now, [], [cache.chains];
      if msg.newGw == msg.oldGw || !trusted {
        return;
      }
      var skeys: seq<bv32>, ikeys: seq<bv32> := [msg.saddr, 0], [ifindex, 0];
      NoLookups(tables, m, skeys, ikeys, chances);
      ghost var first: set<Rtable> := Entries(cache.chains);
      EntriesExist(cache.chains);
      var i: nat := 0;
      while i < 2
        invariant Valid() && Coherent(cache.chains, fib) && |cache.chains| == |old(cache.chains)|
        invariant collector.lastGc <= later && now <= later
        invariant OldOrRerouted(Entries(cache.chains), first, m)
        invariant Lookups(tables, m, skeys, ikeys, steps, chances) && |tables| == |steps| + 1
        invariant forall n :: 0 <= n < |steps| ==> steps[n] != NoMemory
        invariant |steps| == 2 * i <= 4 && tables[0] == old(cache.chains) && tables[|steps|] == cache.chains
        invariant forall e :: e in Entries(cache.chains) && e !in first ==> fresh(e)
      {
        var k: nat := 0;
        while k < 2
          invariant Valid() && Coherent(cache.chains, fib) && |cache.chains| == |old(cache.chains)|
          invariant collector.lastGc <= later && now <= later
          invariant OldOrRerouted(Entries(cache.chains), first, m)
          invariant Lookups(tables, m, skeys, ikeys, steps, chances) && |tables| == |steps| + 1
          invariant forall n :: 0 <= n < |steps| ==> steps[n] != NoMemory
          invariant k <= 2 && |steps| == 2 * i + k && tables[0] == old(cache.chains) && tables[|steps|] == cache.chains
          invariant forall e :: e in Entries(cache.chains) && e !in first ==> fresh(e)
        {
          var step;
          step, later := RedirectNext(m, skeys, ikeys, i, k, later, chances, first, steps, tables);
          steps, tables := steps + [step], tables + [cache.chains];
          if step == NoMemory {
            return;
          }
          k := k + 1;
        }
        i := i + 1;
      }
    }

    /** The lookup for the i-th source key and the k-th interface key */
    method RedirectNext(m: Message, skeys: seq<bv32>, ikeys: seq<bv32>, i: nat, k: nat, now: nat, chances: nat -> Chance,
                        ghost first: set<Rtable>, ghost steps: seq<Step>, ghost tables: seq<seq<seq<Rtable>>>)
      returns (step: Step, later: nat)
      requires Valid() && Coherent(cache.chains, fib) && collector.lastGc <= now && m.newGw != m.oldGw
      requires |skeys| == |ikeys| == 2 && i < 2 && k < 2
      requires OldOrRerouted(Entries(cache.chains), first, m)
      requires Lookups(tables, m, skeys, ikeys, steps, chances)
      requires |steps| == 2 * i + k && |tables| == |steps| + 1 && tables[|steps|] == cache.chains
      modifies collector`expire, collector`lastGc, collector`rover, collector`equilibrium
      modifies collector`gcElasticity, collector`gcMinInterval
      modifies cache`chains, cache.table, Entries(cache.chains)
      ensures Valid() && Coherent(cache.chains, fib) && |cache.chains| == |old(cache.chains)|
      ensures collector.lastGc <= later && now <= later
      ensures OldOrRerouted(Entries(cache.chains), first, m)
      ensures Lookups(tables + [cache.chains], m, skeys, ikeys, steps + [step], chances)
      ensures forall e :: e in Entries(cache.chains) && e !in old(Entries(cache.chains)) ==> fresh(e)
    {
      hide Entries, Chained, Filed, Without, Cache.AllChained, Bucket, HashCode, Coherent, OldOrRerouted, LookedUp, Lookups;
      ghost var before: seq<seq<Rtable>> := cache.chains;
      var b := HashCode(m.daddr, skeys[i] ^ (ikeys[k] << 5), m.tos, cache.table.Length);
      ghost var was, copied;
      step, later, was, copied := RedirectOne(b, m, skeys[i], ikeys[k], now, chances(2 * i + k));
      ReroutedToo(first, before, cache.chains, m, skeys[i], ikeys[k], step, chances(2 * i + k));
      CoherentAfterLookup(before, cache.chains, m, skeys[i], ikeys[k], step, chances(2 * i + k), fib);
      OneMoreLookup(tables, m, skeys, ikeys, steps, cache.chains, step, i, k, chances);
    }

    /** A change of the routing tables, followed as it must be by rt_cache_flush(0) */
    method ChangeFib(newFib: RtKey -> Answer, flusher: FlushTimer.Flusher, user: bool, now: nat)
      requires Valid() && flusher.cache == cache
      modifies this`fib, flusher, cache`chains, cache.table
      ensures Valid() && fib == newFib && Coherent(cache.chains, fib) && |cache.chains| == |old(cache.chains)|
      ensures Entries(cache.chains) == {}
    {
      hide Entries, Chained, Filed, Cache.AllChained;
      EntriesContain(cache.chains);
      fib := newFib;
      FlushTimer.ServedAtOnce(flusher.cfg, flusher.State(), FlushTimer.Request(now, 0, user));
      flusher.CacheFlush(0, user, now);
      EntriesContain(cache.chains);
    }
  }

  /** An ICMP redirect, received on device `dev` */
  datatype Message = Message(oldGw: bv32, daddr: bv32, newGw: bv32, saddr: bv32, tos: bv8, dev: nat)

  /** How one lookup of ip_rt_redirect ends */
  datatype Step = NoEntry | Mismatch | NoMemory | NoNeighbour | Rerouted | Lost

  /** What others decide in one lookup: whether there is memory for the copy, whether its
      neighbour can be bound and is known to be valid, and what happens when it is interned. */
  datatype Chance = Chance(memory: bool, bound: bool, env: Surroundings)

  /** An output entry for these addresses is in the bucket they hash to, if anywhere. */
  lemma NotElsewhere(chains: seq<seq<Rtable>>, b: nat, dst: bv32, src: bv32, oif: bv32, tos: bv8)
    requires Filed(chains) && b < |chains| && b == HashCode(dst, src ^ (oif << 5), tos, |chains|)
    requires forall e :: e in chains[b] ==> !OutputFor(e.key, dst, src, oif, tos)
    ensures forall e :: e in Entries(chains) ==> !OutputFor(e.key, dst, src, oif, tos)
  {
    hide HashCode, Entries;
    forall e | e in Entries(chains) ensures !OutputFor(e.key, dst, src, oif, tos) {
      EntryPlace(chains, e);
    }
  }

  predicate OutputFor(key: RtKey, dst: bv32, src: bv32, oif: bv32, tos: bv8)
    ensures OutputFor(key, dst, src, oif, tos) <==> key == RtKey(dst, src, 0, oif, tos, key.fwmark)
  {
    key.dst == dst && key.src == src && key.tos == tos && key.oif == oif && key.iif == 0
  }

  /** The message is about this entry. */
  predicate Fits(e: Rtable, m: Message)
    ensures Fits(e, m) <==>
      !(e.route.dst != m.daddr || e.route.src != m.saddr || e.route.error != 0
        || e.route.gateway != m.oldGw || e.route.dev != m.dev)
  {
    && e.route.dst == m.daddr && e.route.src == m.saddr && e.route.error == 0
    && e.route.gateway == m.oldGw && e.route.dev == m.dev
  }

  /** `rt` is `was` through the new gateway. */
  predicate ThroughNew(was: Rtable, rt: Rtable, m: Message) {
    Fits(was, m) && rt.key == was.key && rt.key.iif == 0
    && rt.route == was.route.(redirected := true, gateway := m.newGw)
  }

  /** How a lookup goes on from a fitting entry is up to chance. */
  predicate Befalls(step: Step, c: Chance) {
    match step
    case NoMemory => !c.memory
    case NoNeighbour => c.memory && !c.bound
    case Rerouted => c.memory && c.bound && (if c.env.bind(0) == -105 && !c.env.softirq then c.env.bind(1) else c.env.bind(0)) == 0
    case Lost => c.memory && c.bound && (if c.env.bind(0) == -105 && !c.env.softirq then c.env.bind(1) else c.env.bind(0)) != 0
    case _ => true
  }

  /** What one lookup for these keys does to the cache, depending on how it ends */
  ghost predicate LookedUp(before: seq<seq<Rtable>>, after: seq<seq<Rtable>>, m: Message, skey: bv32, ikey: bv32,
                           step: Step, c: Chance) {
    && Befalls(step, c)
    && match step
       case NoEntry =>
         after == before && forall e :: e in Entries(before) ==> !OutputFor(e.key, m.daddr, skey, ikey, m.tos)
       case Rerouted =>
         exists was, copy :: was in Entries(before) && copy in Entries(after) && copy !in Entries(before)
           && ThroughNew(was, copy, m) && Replaced(was, before, after, m, skey, ikey, {copy}, c.env)
       case Lost =>
         exists was :: was in Entries(before) && Replaced(was, before, after, m, skey, ikey, {}, c.env)
       case _ =>
         after == before && exists was :: was in Entries(before) && Found(was, m, skey, ikey, step != Mismatch)
  }

  predicate Found(e: Rtable, m: Message, skey: bv32, ikey: bv32, fits: bool) {
    OutputFor(e.key, m.daddr, skey, ikey, m.tos) && Fits(e, m) == fits
  }

  /** `was` fits and is gone, and what is new is in the cache, first in its bucket. No other
      entry is gone unless the collector had to run. */
  ghost predicate Replaced(was: Rtable, before: seq<seq<Rtable>>, after: seq<seq<Rtable>>, m: Message, skey: bv32, ikey: bv32,
                           added: set<Rtable>, env: Surroundings) {
    && Found(was, m, skey, ikey, true) && was !in Entries(after)
    && added <= Entries(after) <= Entries(before) - {was} + added
    && (env.bind(0) != -105 || env.softirq ==> Entries(after) == Entries(before) - {was} + added)
    && |after| > 0 && forall e :: e in added ==>
         after[Bucket(e.key, |after|)] != [] && after[Bucket(e.key, |after|)][0] == e
  }

  lemma NoneFound(before: seq<seq<Rtable>>, m: Message, skey: bv32, ikey: bv32, c: Chance)
    requires forall e :: e in Entries(before) ==> !OutputFor(e.key, m.daddr, skey, ikey, m.tos)
    ensures LookedUp(before, before, m, skey, ikey, NoEntry, c)
  {
  }

  lemma LeftAlone(before: seq<seq<Rtable>>, m: Message, skey: bv32, ikey: bv32, was: Rtable, step: Step, c: Chance)
    requires was in Entries(before) && Found(was, m, skey, ikey, step != Mismatch) && Befalls(step, c)
    requires step == Mismatch || step == NoMemory || step == NoNeighbour
    ensures LookedUp(before, before, m, skey, ikey, step, c)
  {
  }

  lemma ReplacedBy(before: seq<seq<Rtable>>, after: seq<seq<Rtable>>, m: Message, skey: bv32, ikey: bv32,
                   was: Rtable, rt: Rtable, step: Step, c: Chance)
    requires was in Entries(before) && OutputFor(was.key, m.daddr, skey, ikey, m.tos)
    requires ThroughNew(was, rt, m) && rt !in Entries(before)
    requires Befalls(step, c) && step in {Step.Rerouted, Lost} && |after| > 0
    requires var added := if step == Step.Rerouted then {rt} else {};
      && added <= Entries(after) <= Entries(before) - {was} + added
      && (c.env.bind(0) != -105 || c.env.softirq ==> Entries(after) == Entries(before) - {was} + added)
    requires step == Step.Rerouted ==>
      after[Bucket(rt.key, |after|)] != [] && after[Bucket(rt.key, |after|)][0] == rt
    ensures LookedUp(before, after, m, skey, ikey, step, c)
  {
    hide Bucket, Entries;
    assert Replaced(was, before, after, m, skey, ikey, if step == Step.Rerouted then {rt} else {}, c.env);
  }

  /** The lookups so far: each of the two source keys with each of the two interface keys */
  ghost predicate Lookups(tables: seq<seq<seq<Rtable>>>, m: Message, skeys: seq<bv32>, ikeys: seq<bv32>, steps: seq<Step>,
                          chances: nat -> Chance) {
    && |tables| == |steps| + 1 && |skeys| == |ikeys| == 2 && |steps| <= 4
    && forall n :: 0 <= n < |steps| ==>
         LookedUp(tables[n], tables[n + 1], m, skeys[n / 2], ikeys[n % 2], steps[n], chances(n))
  }

  lemma NoLookups(tables: seq<seq<seq<Rtable>>>, m: Message, skeys: seq<bv32>, ikeys: seq<bv32>, chances: nat -> Chance)
    requires |tables| == 1 && |skeys| == |ikeys| == 2
    ensures Lookups(tables, m, skeys, ikeys, [], chances)
  {
  }

  lemma OneMoreLookup(tables: seq<seq<seq<Rtable>>>, m: Message, skeys: seq<bv32>, ikeys: seq<bv32>, steps: seq<Step>,
                      after: seq<seq<Rtable>>, step: Step, i: nat, k: nat, chances: nat -> Chance)
    requires Lookups(tables, m, skeys, ikeys, steps, chances) && |steps| == 2 * i + k && i < 2 && k < 2
    requires LookedUp(tables[|steps|], after, m, skeys[i], ikeys[k], step, chances(2 * i + k))
    ensures Lookups(tables + [after], m, skeys, ikeys, steps + [step], chances)
  {
    hide LookedUp;
    var t, s: seq<Step> := tables + [after], steps + [step];
    assert (2 * i + k) / 2 == i && (2 * i + k) % 2 == k;
    forall n | 0 <= n < |s| ensures LookedUp(t[n], t[n + 1], m, skeys[n / 2], ikeys[n % 2], s[n], chances(n)) {
      if n < |steps| {
        assert t[n] == tables[n] && t[n + 1] == tables[n + 1] && s[n] == steps[n];
      }
    }
  }

  ghost predicate OldOrRerouted(now: set<Rtable>, before: set<Rtable>, m: Message) {
    forall e :: e in now && e !in before ==> exists o :: o in before && ThroughNew(o, e, m)
  }

  lemma NoneRerouted(entries: set<Rtable>, m: Message)
    ensures OldOrRerouted(entries, entries, m)
  {
  }

  /** A copy made by an earlier lookup is through the new gateway, so it is not copied again. */
  lemma ReroutedToo(first: set<Rtable>, before: seq<seq<Rtable>>, after: seq<seq<Rtable>>, m: Message,
                    skey: bv32, ikey: bv32, step: Step, c: Chance)
    requires OldOrRerouted(Entries(before), first, m) && m.newGw != m.oldGw
    requires LookedUp(before, after, m, skey, ikey, step, c)
    ensures OldOrRerouted(Entries(after), first, m)
  {
    hide Entries, Bucket;
    if step == Step.Rerouted {
      var was: Rtable, copy: Rtable :| was in Entries(before) && copy in Entries(after) && copy !in Entries(before) && ThroughNew(was, copy, m)
        && Replaced(was, before, after, m, skey, ikey, {copy}, c.env);
      assert was in first;
    }
  }

  lemma CoherentAfterLookup(before: seq<seq<Rtable>>, after: seq<seq<Rtable>>, m: Message, skey: bv32, ikey: bv32,
                            step: Step, c: Chance, fib: RtKey -> Answer)
    requires Coherent(before, fib) && LookedUp(before, after, m, skey, ikey, step, c)
    ensures Coherent(after, fib)
  {
    hide Fits, OutputFor, Bucket;
    forall b, i | 0 <= b < |after| && 0 <= i < |after[b]| && after[b][i].key.iif != 0
      ensures fib(after[b][i].key) == Answer(after[b][i].route)
    {
      assert after[b][i] in Entries(after);
    }
  }

  /** IPTOS_RT_MASK */
  const TOS_MASK: bv8 := 0x1C
}
