/** The adaptive garbage collector and the periodic expiry of the route cache. */
module RouteCollector {
  import opened RouteEntries
  import opened RouteChains
  import opened RouteCache

  /** How rt_garbage_collect ends: it came too early; nothing had to go; enough went; the
      table has room though not enough went; or the table is overfull and it failed. */
  datatype Outcome = TooEarly | NothingToDo | GoalMet | Room | Overflow

  /** What others decide while the collector runs: the number of entries allocated, at each
      read of it, and how far the clock has moved on at each read since the one before. */
  datatype Readings = Readings(
    atStart: nat, first: nat, second: nat, third: nat, afterRound: nat -> nat, atEnd: nat, atEase: nat,
    passes: nat -> nat)

  ghost predicate StandsStill(passes: nat -> nat) {
    forall n :: passes(n) == 0
  }

  ghost function Idle(chains: seq<seq<Rtable>>): set<Rtable>
    reads Entries(chains)`refcnt
  {
    set e | e in Entries(chains) && e.refcnt == 0
  }

  /** What the periodic sweep may take: also entries in use once they have expired. */
  ghost function Stale(chains: seq<seq<Rtable>>, started: nat): set<Rtable>
    reads Entries(chains)`refcnt, Entries(chains)`expires
  {
    set e | e in Entries(chains) && (e.refcnt == 0 || (e.expires != 0 && started > e.expires))
  }

  /** Every entry the sweep may take is in `spare`. */
  ghost predicate Covers(spare: set<Rtable>, chains: seq<seq<Rtable>>, sw: Sweeper)
    reads Entries(chains)`refcnt, Entries(chains)`expires
  {
    forall e :: e in Entries(chains) && Removable(e, sw) ==> e in spare
  }

  /** No entry left idle is past its expiry, or unused for longer than the patience. */
  ghost predicate NoneOverdue(c: seq<Rtable>, patience: nat, now: nat)
    reads (set e | e in c)`refcnt, (set e | e in c)`lastuse, (set e | e in c)`expires
  {
    forall e :: e in c && e.refcnt == 0 ==> now - e.lastuse <= patience && (e.expires == 0 || e.expires > now)
  }

  ghost predicate Unexpired(c: seq<Rtable>, started: nat)
    reads (set e | e in c)`expires
  {
    forall e :: e in c ==> e.expires == 0 || e.expires >= started
  }

  lemma ThinnedEntries(before: seq<seq<Rtable>>, chains: seq<seq<Rtable>>, spare: set<Rtable>)
    requires AllThinned(before, chains, spare)
    ensures Entries(chains) <= Entries(before)
  {
    hide Thinned;
    forall b, i | 0 <= b < |chains| && 0 <= i < |chains[b]| ensures chains[b][i] in Entries(before) {
      ThinnedMembers(before[b], chains[b], spare);
      assert chains[b][i] in before[b];
    }
  }

  lemma StaleCovers(chains: seq<seq<Rtable>>, timeout: nat, started: nat)
    ensures Covers(Stale(chains, started), chains, Periodic(timeout, started))
  {
  }

  lemma EntriesExist(chains: seq<seq<Rtable>>)
    ensures forall e :: e in Entries(chains) ==> allocated(e)
  {
  }

  lemma MembersAreEntries(chains: seq<seq<Rtable>>, b: nat)
    requires b < |chains|
    ensures forall e :: e in chains[b] ==> e in Entries(chains)
  {
  }

  /** Sweeping bucket b of chains that are `before` thinned out. */
  lemma SweptToo(before: seq<seq<Rtable>>, chains: seq<seq<Rtable>>, b: nat, sw: Sweeper, now: nat, spare: set<Rtable>)
    requires AllThinned(before, chains, spare) && Covers(spare, before, sw) && b < |chains|
    ensures AllThinned(before, chains[b := Sweep(chains[b], Strength(sw), sw, now)], spare)
  {
    hide Thinned, Sweep, Entries, Removable;
    ThinnedEntries(before, chains, spare);
    MembersAreEntries(chains, b);
    SweepThins(chains[b], Strength(sw), sw, now, spare);
    AllThinnedStep(before, chains, b, Sweep(chains[b], Strength(sw), sw, now), spare);
  }

  class Collector {
    const cache: Cache
    var expire: nat
    var lastGc: nat
    var rover: nat
    var equilibrium: int
    var sweepRover: nat
    var gcMinInterval: nat
    var gcElasticity: nat
    var gcTimeout: nat
    var gcInterval: nat
    var maxSize: nat
    var gcThresh: nat

    constructor (cache: Cache, timeout: nat)
      ensures this.cache == cache && expire == timeout && gcTimeout == timeout && lastGc == 0
    {
      this.cache := cache;
      expire, gcTimeout, lastGc, rover, equilibrium, sweepRover := timeout, timeout, 0, 0, 0, 0;
      new;
    }

    /** How many entries should go; the equilibrium follows. The number of entries is read up
        to three times and may differ each time: the first read decides whether the area is
        dangerous, and the equilibrium is what the last one leaves when the goal is met. */
    method SetGoal(seen: Readings) returns (goal: int)
      modifies this`equilibrium
      ensures
        var size := cache.table.Length;
        var limit := gcElasticity * size;
        var bar := if old(equilibrium) < gcThresh then gcThresh else old(equilibrium);
        && goal == Goal(seen, limit, size, bar)
        && equilibrium == if seen.first > limit then seen.second - goal
                          else if seen.second <= bar then seen.second
                          else if goal > 0 then seen.third - goal
                          else seen.third
    {
      hide *;
      var size := cache.table.Length;
      ghost var bar := if equilibrium < gcThresh then gcThresh else equilibrium;
      GoalMeans(seen, gcElasticity * size, size, bar);
      goal := seen.first - gcElasticity * size;
      if goal <= 0 {
        if equilibrium < gcThresh {
          equilibrium := gcThresh;
        }
        goal := seen.second - equilibrium;
        if goal > 0 {
          equilibrium := equilibrium + if goal / 2 < size then goal / 2 else size;
          goal := seen.third - equilibrium;
        }
      } else {
        goal := if goal / 2 > size then goal / 2 else size;
        equilibrium := seen.second - goal;
      }
      if goal <= 0 {
        equilibrium := equilibrium + goal;
      }
    }

    /** One bucket of either sweep: `before` is how the chains were when the sweep began. */
    method Pass(b: nat, sw: Sweeper, now: nat, ghost before: seq<seq<Rtable>>, ghost spare: set<Rtable>)
      returns (removed: nat)
      requires cache.Valid() && b < cache.table.Length
      requires AllThinned(before, cache.chains, spare) && Covers(spare, before, sw)
      modifies cache`chains, cache.table, Entries(cache.chains)`next
      ensures cache.Valid() && AllThinned(before, cache.chains, spare) && Covers(spare, before, sw)
      ensures b < |old(cache.chains)| == |cache.chains|
      ensures forall a :: 0 <= a < |cache.chains| && a != b ==> cache.chains[a] == old(cache.chains[a])
      ensures cache.chains[b] == Sweep(old(cache.chains)[b], Strength(sw), sw, now)
      ensures removed == |old(cache.chains)[b]| - |cache.chains[b]| == Total(old(cache.chains)) - Total(cache.chains)
    {
      hide Filed, Entries, Chained, Sweep, Total, Thinned;
      ghost var was: seq<seq<Rtable>> := cache.chains;
      EntriesExist(before);
      SweptToo(before, was, b, sw, now, spare);
      removed := cache.SweepBucket(b, sw, now);
      TotalUpdate(was, b, cache.chains[b]);
    }

    /** One round over the buckets from the rover on, until enough is unlinked. */
    method SweepRound(goal: int, clock: nat, passes: nat -> nat, n: nat)
      returns (left: int, later: nat, m: nat, ghost visited: nat)
      requires cache.Valid() && goal > 0
      modifies this`rover, cache`chains, cache.table, Entries(cache.chains)`next
      ensures cache.Valid() && AllThinned(old(cache.chains), cache.chains, old(Idle(cache.chains)))
      ensures goal - left == Total(old(cache.chains)) - Total(cache.chains)
      ensures later >= clock && (StandsStill(passes) ==> later == clock)
      ensures rover < |old(cache.chains)| == |cache.chains| && Turn(old(rover), rover, |cache.chains|) == visited
      ensures Swept(old(cache.chains), cache.chains, old(rover), visited, Sweeper.Collector(expire), clock, later)
      ensures left > 0 ==> visited == |cache.chains|
      ensures left + |old(cache.chains)[rover]| - |cache.chains[rover]| > 0
    {
      hide Filed, Entries, Chained, Sweep, Total, Thinned, Swept, StandsStill, Turn;
      ghost var idle: set<Rtable>, before: seq<seq<Rtable>> := Idle(cache.chains), cache.chains;
      EntriesExist(before);
      AllThinnedSame(before, idle);
      var size := cache.table.Length;
      var i := size;
      var k: nat := rover;
      left, later, m, visited := goal, clock, n, 0;
      NothingSwept(before, rover, Sweeper.Collector(expire), clock);
      while true
        invariant 0 < i <= size == cache.table.Length == |before| && visited == size - i && left > 0
        invariant if i == size then k == rover else k < size && Turn(rover, k, size) == visited
        invariant cache.Valid() && AllThinned(before, cache.chains, idle)
        invariant left == goal - (Total(before) - Total(cache.chains))
        invariant later >= clock && (StandsStill(passes) ==> later == clock)
        invariant Covers(idle, before, Sweeper.Collector(expire))
        invariant Swept(before, cache.chains, rover, visited, Sweeper.Collector(expire), clock, later)
        invariant rover == old(rover)
        decreases i
      {
        NextBucket(rover, k, visited, size);
        k := (k + 1) % size;
        ThinnedEntries(before, cache.chains, idle);
        if StandsStill(passes) {
          Still(passes, m);
        }
        ghost var was: seq<seq<Rtable>> := cache.chains;
        var now := later + passes(m);
        var removed := Pass(k, Sweeper.Collector(expire), now, before, idle);
        OneMoreSwept(before, was, cache.chains, rover, k, Sweeper.Collector(expire), clock, later, now);
        left, later, m, i, visited := left - removed, now, m + 1, i - 1, visited + 1;
        if left <= 0 || i == 0 {
          break;
        }
      }
      rover := k;
    }

    /** rt_garbage_collect. `tables` is the cache before the first round and after each. */
    method GarbageCollect(now: nat, softirq: bool, seen: Readings)
      returns (ret: int, outcome: Outcome, ghost goal: int, ghost tables: seq<seq<seq<Rtable>>>)
      requires cache.Valid() && lastGc <= now
      modifies this`expire, this`lastGc, this`rover, this`equilibrium
      modifies cache`chains, cache.table, Entries(cache.chains)`next
      ensures cache.Valid() && AllThinned(old(cache.chains), cache.chains, old(Idle(cache.chains)))
      ensures ret == if outcome == Overflow then 1 else 0
      ensures outcome == TooEarly <==> now - old(lastGc) < gcMinInterval && seen.atStart < maxSize
      ensures outcome == TooEarly ==> unchanged(`expire) && unchanged(`rover) && unchanged(`equilibrium)
      ensures lastGc == if outcome != TooEarly && now - old(lastGc) >= gcMinInterval then now else old(lastGc)
      ensures
        var size := cache.table.Length;
        goal == Goal(seen, gcElasticity * size, size, if old(equilibrium) < gcThresh then gcThresh else old(equilibrium))
      ensures outcome == NothingToDo <==> outcome != TooEarly && goal <= 0
      ensures outcome in {TooEarly, NothingToDo} ==> cache.chains == old(cache.chains) && unchanged(`rover)
      ensures outcome == NothingToDo ==>
        expire == if old(expire) + gcMinInterval > gcTimeout || seen.atEase < gcThresh then gcTimeout
                  else old(expire) + gcMinInterval
      ensures outcome !in {TooEarly, NothingToDo} ==>
        && RoundsRun(tables, old(cache.chains), cache.chains, old(expire), goal, now, StandsStill(seen.passes), outcome == GoalMet)
        && Ends(outcome, |tables| - 1, old(expire), softirq, maxSize, seen)
        && |tables| >= 2 && (softirq ==> |tables| == 2)
      ensures outcome == Overflow ==> seen.atEnd >= maxSize
      ensures outcome == Room ==> seen.atEnd < maxSize || exists r :: seen.afterRound(r) < maxSize
      ensures outcome == GoalMet ==>
        var last := Halved(old(expire), |tables| - 2);
        && Total(old(cache.chains)) - Total(cache.chains) >= goal
        && expire == if last + gcMinInterval > gcTimeout || seen.atEase < gcThresh then gcTimeout
                     else last + gcMinInterval
      ensures outcome in {Room, Overflow} ==>
        && Total(old(cache.chains)) - Total(cache.chains) < goal
        && expire == Halved(old(expire), |tables| - 1)
        && forall b :: 0 <= b < |cache.chains| ==>
             && NoneOverdue(cache.chains[b], old(expire), now)
             && NoneOverdue(cache.chains[b], Halved(old(expire), |tables| - 2), now)
      ensures outcome == Overflow && !softirq && StandsStill(seen.passes) ==>
        forall b :: 0 <= b < |cache.chains| ==> NoneOverdue(cache.chains[b], 0, now)
    {
      hide Filed, Entries, Chained, Total, Thinned, AllThinned, NoneOverdue, Idle, RoundsRun, Halved, Goal, StandsStill;
      goal, ret, tables := 0, 0, [];
      ghost var before: seq<seq<Rtable>> := cache.chains;
      EntriesExist(cache.chains);
      AllThinnedSame(cache.chains, Idle(cache.chains));
      goal := Goal(seen, gcElasticity * cache.table.Length, cache.table.Length,
                   if equilibrium < gcThresh then gcThresh else equilibrium);
      if now - lastGc < gcMinInterval && seen.atStart < maxSize {
        outcome := TooEarly;
        return;
      }
      var left := SetGoal(seen);
      if now - lastGc >= gcMinInterval {
        lastGc := now;
      }
      if left <= 0 {
        outcome := NothingToDo;
      } else {
        outcome, tables := Rounds(left, now, softirq, seen);
        RoundsCount(tables, before, cache.chains, old(expire), goal, now, StandsStill(seen.passes), outcome == GoalMet);
        if outcome != GoalMet {
          RoundsLeave(tables, before, cache.chains, old(expire), goal, now, StandsStill(seen.passes));
          ret := if outcome == Overflow then 1 else 0;
          return;
        }
      }
      TablesExist(tables);
      EaseOff(seen.atEase);
    }

    /** work_done: the collector may be less strict next time. */
    method EaseOff(entries: nat)
      modifies this`expire
      ensures expire == if old(expire) + gcMinInterval > gcTimeout || entries < gcThresh then gcTimeout
                        else old(expire) + gcMinInterval
    {
      expire := expire + gcMinInterval;
      if expire > gcTimeout || entries < gcThresh {
        expire := gcTimeout;
      }
    }

    /** The rounds of the collector, each with half the patience of the one before. */
    method Rounds(goal: int, now: nat, softirq: bool, seen: Readings)
      returns (outcome: Outcome, ghost tables: seq<seq<seq<Rtable>>>)
      requires cache.Valid() && goal > 0
      modifies this`expire, this`rover, cache`chains, cache.table, Entries(cache.chains)`next
      ensures cache.Valid() && AllThinned(old(cache.chains), cache.chains, old(Idle(cache.chains)))
      ensures RoundsRun(tables, old(cache.chains), cache.chains, old(expire), goal, now, StandsStill(seen.passes), outcome == GoalMet)
      ensures Ends(outcome, |tables| - 1, old(expire), softirq, maxSize, seen)
      ensures expire == Halved(old(expire), if outcome == GoalMet then |tables| - 2 else |tables| - 1)
    {
      hide Filed, Entries, Chained, Total, Thinned, AllThinned, Idle, RoundsRun, AllEntries, Halved, StandsStill, Swept, Turn, Ends, GoesOn, Cache.Valid;
      ghost var idle: set<Rtable>, before: seq<seq<Rtable>> := Idle(cache.chains), cache.chains;
      EntriesExist(before);
      AllThinnedSame(before, idle);
      NoRounds(before, expire, goal, now, StandsStill(seen.passes));
      HalvedAgain(expire, 0);
      StartGoing(expire, softirq, maxSize, seen);
      var left, clock, n, r := goal, now, 0, 0;
      tables := [before];
      while true
        invariant left > 0 && cache.Valid() && AllThinned(before, cache.chains, idle) && idle == Idle(before)
        invariant left == goal - (Total(before) - Total(cache.chains))
        invariant clock >= now && (StandsStill(seen.passes) ==> clock == now)
        invariant |tables| == r + 1 && expire == Halved(old(expire), r)
        invariant RoundsRun(tables, before, cache.chains, old(expire), goal, now, StandsStill(seen.passes), false)
        invariant GoesOn(r, old(expire), softirq, maxSize, seen)
        decreases expire
      {
        ThinnedEntries(before, cache.chains, idle);
        HalvedAgain(old(expire), r);
        ghost var was: seq<seq<Rtable>>, from: nat, since: nat, visited := cache.chains, rover, clock, 0;
        TablesExist(tables);
        left, clock, n, visited := SweepRound(left, clock, seen.passes, n);
        ThinnedAgain(before, was, cache.chains, idle);
        OneMoreRound(tables, before, was, cache.chains, old(expire), goal, now, StandsStill(seen.passes), from, visited, since, clock);
        tables, r := tables + [cache.chains], r + 1;
        if left <= 0 {
          Ended(GoalMet, r, old(expire), softirq, maxSize, seen);
          return GoalMet, tables;
        }
        if expire == 0 {
          break;
        }
        expire := expire / 2;
        if seen.afterRound(r - 1) < maxSize {
          Ended(Room, r, old(expire), softirq, maxSize, seen);
          return Room, tables;
        }
        if StandsStill(seen.passes) {
          Still(seen.passes, n);
        }
        clock, n := clock + seen.passes(n), n + 1;
        if softirq || clock - now >= 1 {
          break;
        }
        KeepGoing(r, old(expire), softirq, maxSize, seen);
      }
      outcome := if seen.atEnd < maxSize then Room else Overflow;
      Ended(outcome, r, old(expire), softirq, maxSize, seen);
    }

    /** rt_check_expire: some buckets are swept each time; entries past their expiry go even
        when they are in use. With a timeout of 0 only the clock ends the loop. */
    method CheckExpire(now: nat, passes: nat -> nat) returns (ghost visited: nat)
      requires cache.Valid() && (gcTimeout == 0 ==> !StandsStill(passes))
      modifies this`sweepRover, cache`chains, cache.table, Entries(cache.chains)`next
      ensures cache.Valid() && AllThinned(old(cache.chains), cache.chains, old(Stale(cache.chains, now)))
      ensures sweepRover < |old(cache.chains)| == |cache.chains| && visited > 0
      ensures visited <= |cache.chains| ==> Turn(old(sweepRover), sweepRover, |cache.chains|) == visited
      ensures ExpiredSoFar(old(cache.chains), cache.chains, old(sweepRover), visited, gcTimeout, now, now + passes(visited - 1))
      ensures forall n :: 0 <= n < visited - 1 ==> passes(n) == 0
      ensures Times(visited - 1, gcTimeout) <= Times(|cache.chains|, gcInterval)
      ensures passes(visited - 1) > 0 || Times(visited, gcTimeout) > Times(|cache.chains|, gcInterval)
    {
      hide *;
      var i: nat;
      i, visited := SweepSome(now, passes);
      sweepRover := i;
    }

    /** The loop of rt_check_expire, from the bucket after the rover on */
    method SweepSome(now: nat, passes: nat -> nat) returns (i: nat, ghost visited: nat)
      requires cache.Valid() && (gcTimeout == 0 ==> !StandsStill(passes))
      modifies cache`chains, cache.table, Entries(cache.chains)`next
      ensures cache.Valid() && AllThinned(old(cache.chains), cache.chains, old(Stale(cache.chains, now)))
      ensures i < |old(cache.chains)| == |cache.chains| && visited > 0
      ensures visited <= |cache.chains| ==> Turn(sweepRover, i, |cache.chains|) == visited
      ensures ExpiredSoFar(old(cache.chains), cache.chains, sweepRover, visited, gcTimeout, now, now + passes(visited - 1))
      ensures forall n :: 0 <= n < visited - 1 ==> passes(n) == 0
      ensures Times(visited - 1, gcTimeout) <= Times(|cache.chains|, gcInterval)
      ensures passes(visited - 1) > 0 || Times(visited, gcTimeout) > Times(|cache.chains|, gcInterval)
    {
      hide Filed, Entries, Chained, Sweep, Total, Thinned, AllThinned, Unexpired, Turn, Covers, Times, ExpiredSoFar, Stale;
      ghost var stale: set<Rtable>, before: seq<seq<Rtable>> := Stale(cache.chains, now), cache.chains;
      EntriesExist(before);
      AllThinnedSame(before, stale);
      StaleCovers(before, gcTimeout, now);
      NoneExpiredYet(before, sweepRover, gcTimeout, now);
      var size := cache.table.Length;
      var t: int := Times(size, gcInterval);
      NoTimes(gcTimeout, size, gcInterval);
      ghost var turn: nat, ticks: nat := 0, if gcTimeout == 0 then Tick(passes) else 0;
      var n: nat := 0;
      i, visited := sweepRover, 0;
      while t >= 0
        invariant size == cache.table.Length == |cache.chains| == |before| && turn <= size && n == visited
        invariant if turn == 0 then i == sweepRover else i < size && Turn(sweepRover, i, size) == turn
        invariant (visited <= size ==> turn == visited) && (visited == 0 ==> t >= 0)
        invariant t == Times(size, gcInterval) - Times(visited, gcTimeout)
        invariant visited > 0 ==> i < size && Times(visited - 1, gcTimeout) <= Times(size, gcInterval)
        invariant cache.Valid() && AllThinned(before, cache.chains, stale)
        invariant Covers(stale, before, Periodic(gcTimeout, now))
        invariant ExpiredSoFar(before, cache.chains, sweepRover, visited, gcTimeout, now, now)
        invariant forall m :: 0 <= m < n ==> passes(m) == 0
        invariant gcTimeout == 0 ==> visited <= ticks && passes(ticks) > 0
        decreases if gcTimeout > 0 then t else ticks - visited
      {
        NextBucket(sweepRover, i, turn, size);
        OnceMore(visited, gcTimeout);
        i := (i + 1) % size;
        turn := if turn < size then turn + 1 else 1;
        ThinnedEntries(before, cache.chains, stale);
        ghost var was: seq<seq<Rtable>> := cache.chains;
        var _ := Pass(i, Periodic(gcTimeout, now), now + passes(n), before, stale);
        OneMoreExpired(before, was, cache.chains, sweepRover, i, visited, gcTimeout, now, now + passes(n));
        visited, n := visited + 1, n + 1;
        if passes(n - 1) > 0 {
          break;
        }
        t := t - gcTimeout;
      }
    }
  }

  /** When the clock first moves, or one of the reads when it does */
  ghost function Tick(passes: nat -> nat): (n: nat)
    requires !StandsStill(passes)
    ensures passes(n) > 0
  {
    var n: nat :| passes(n) != 0;
    n
  }

  /** How many entries have to go, from the reads of their number: above `limit` at least half
      the excess; else what exceeds the equilibrium, raised by half of that. */
  function Goal(seen: Readings, limit: nat, size: nat, bar: int): int {
    if seen.first > limit then
      if (seen.first - limit) / 2 > size then (seen.first - limit) / 2 else size
    else if seen.second <= bar then seen.second - bar
    else seen.third - bar - if (seen.second - bar) / 2 < size then (seen.second - bar) / 2 else size
  }

  /** In the dangerous area the goal is at least one entry per bucket and half the excess. Else
      there is one if the number is above the old equilibrium and the threshold and does not
      fall meanwhile, and then it is at least half of what is above. */
  lemma GoalMeans(seen: Readings, limit: nat, size: nat, bar: int)
    ensures var goal := Goal(seen, limit, size, bar);
      if seen.first > limit then
        goal >= size && goal >= (seen.first - limit) / 2 && (goal == size || goal == (seen.first - limit) / 2)
      else if seen.second <= bar then goal == seen.second - bar
      else
        var least := seen.third - bar - (seen.second - bar) / 2;
        && goal >= least && goal >= seen.third - bar - size
        && (goal == least || goal == seen.third - bar - size)
        && (seen.third >= seen.second ==> goal > 0)
  {
  }

  /** A bucket swept at a time between `since` and `until` */
  ghost predicate BucketSwept(before: seq<Rtable>, after: seq<Rtable>, sw: Sweeper, since: nat, until: nat)
    reads (set e | e in before)`refcnt, (set e | e in before)`expires, (set e | e in before)`lastuse
  {
    exists now: nat :: since <= now <= until && after == Sweep(before, Strength(sw), sw, now)
  }

  /** The first `visited` buckets after `from` have been swept, and no others. */
  ghost predicate Swept(before: seq<seq<Rtable>>, after: seq<seq<Rtable>>, from: nat, visited: nat,
                        sw: Sweeper, since: nat, until: nat)
    reads Entries(before)`refcnt, Entries(before)`expires, Entries(before)`lastuse
  {
    EntriesContain(before);
    |before| == |after| && forall b :: 0 <= b < |before| ==>
      if Turn(from, b, |before|) <= visited then BucketSwept(before[b], after[b], sw, since, until)
      else after[b] == before[b]
  }

  lemma NothingSwept(chains: seq<seq<Rtable>>, from: nat, sw: Sweeper, since: nat)
    ensures Swept(chains, chains, from, 0, sw, since, since)
  {
  }

  /** The next bucket is swept, at `now`. */
  lemma OneMoreSwept(before: seq<seq<Rtable>>, was: seq<seq<Rtable>>, chains: seq<seq<Rtable>>, from: nat, k: nat,
                     sw: Sweeper, since: nat, until: nat, now: nat)
    requires k < |before| && Swept(before, was, from, Turn(from, k, |before|) - 1, sw, since, until)
    requires |chains| == |was| && forall a :: 0 <= a < |was| && a != k ==> chains[a] == was[a]
    requires chains[k] == Sweep(was[k], Strength(sw), sw, now) && since <= until <= now
    ensures was[k] == before[k] && Swept(before, chains, from, Turn(from, k, |before|), sw, since, now)
  {
    hide Turn, Sweep;
    forall b | 0 <= b < |before| ensures
      if Turn(from, b, |before|) <= Turn(from, k, |before|) then BucketSwept(before[b], chains[b], sw, since, now)
      else chains[b] == before[b]
    {
      if b != k {
        TurnsDiffer(from, b, k, |before|);
      }
    }
  }

  /** The periodic sweep after `visited` buckets: in those nothing expired is left; and as long
      as none has been visited twice, they are swept and the others untouched. */
  ghost predicate ExpiredSoFar(before: seq<seq<Rtable>>, chains: seq<seq<Rtable>>, from: nat, visited: nat,
                               timeout: nat, now: nat, until: nat)
    reads Entries(before)`refcnt, Entries(before)`expires, Entries(before)`lastuse, Entries(chains)`expires
  {
    EntriesContain(chains);
    && |before| == |chains|
    && (forall b :: 0 <= b < |chains| && Turn(from, b, |chains|) <= visited ==> Unexpired(chains[b], now))
    && (visited <= |chains| ==> Swept(before, chains, from, visited, Periodic(timeout, now), now, until))
  }

  lemma NoneExpiredYet(chains: seq<seq<Rtable>>, from: nat, timeout: nat, now: nat)
    ensures ExpiredSoFar(chains, chains, from, 0, timeout, now, now)
  {
    NothingSwept(chains, from, Periodic(timeout, now), now);
  }

  lemma OneMoreExpired(before: seq<seq<Rtable>>, was: seq<seq<Rtable>>, chains: seq<seq<Rtable>>, from: nat, k: nat,
                       visited: nat, timeout: nat, now: nat, at: nat)
    requires k < |before| && now <= at && ExpiredSoFar(before, was, from, visited, timeout, now, now)
    requires visited < |before| ==> Turn(from, k, |before|) == visited + 1
    requires |chains| == |was| && forall a :: 0 <= a < |was| && a != k ==> chains[a] == was[a]
    requires chains[k] == Sweep(was[k], timeout, Periodic(timeout, now), at)
    ensures ExpiredSoFar(before, chains, from, visited + 1, timeout, now, at)
  {
    hide Turn, Sweep, Swept;
    NoneExpired(was[k], timeout, timeout, now, at);
    if visited < |before| {
      OneMoreSwept(before, was, chains, from, k, Periodic(timeout, now), now, now, at);
      forall b | 0 <= b < |chains| && Turn(from, b, |chains|) <= visited + 1 ensures Unexpired(chains[b], now) {
        if b != k {
          TurnsDiffer(from, b, k, |chains|);
        }
      }
    }
  }

  lemma TurnsDiffer(from: nat, a: nat, b: nat, size: nat)
    requires a < size && b < size && a != b
    ensures Turn(from, a, size) != Turn(from, b, size)
  {
    hide Rest;
  }

  /** One round of the collector, with the clock not before `now` */
  ghost predicate OneRound(before: seq<seq<Rtable>>, after: seq<seq<Rtable>>, strength: nat, now: nat, still: bool, complete: bool)
    reads Entries(before)`refcnt, Entries(before)`expires, Entries(before)`lastuse
  {
    exists from: nat, visited: nat, until: nat ::
      && Swept(before, after, from, visited, Collector(strength), now, until)
      && (still ==> until == now) && (complete ==> visited >= |before|)
  }

  ghost function AllEntries(tables: seq<seq<seq<Rtable>>>): set<Rtable> {
    set r, e | 0 <= r < |tables| && e in Entries(tables[r]) :: e
  }

  lemma TablesExist(tables: seq<seq<seq<Rtable>>>)
    ensures forall e :: e in AllEntries(tables) ==> allocated(e)
  {
  }

  /** The rounds so far, each at half the strength of the one before. All but the last miss
      the goal and visit every bucket. */
  ghost predicate RoundsRun(tables: seq<seq<seq<Rtable>>>, before: seq<seq<Rtable>>, after: seq<seq<Rtable>>,
                            strength: nat, goal: int, now: nat, still: bool, met: bool)
    reads AllEntries(tables)`refcnt, AllEntries(tables)`expires, AllEntries(tables)`lastuse
  {
    var last := |tables| - 1;
    && last >= 0 && tables[0] == before && tables[last] == after
    && (forall r :: 0 <= r < last ==>
          OneRound(tables[r], tables[r + 1], Halved(strength, r), now, still, !met || r < last - 1))
    && forall r :: 0 <= r <= last ==> (Total(before) - Total(tables[r]) >= goal <==> met && r == last)
  }

  lemma NoRounds(chains: seq<seq<Rtable>>, strength: nat, goal: int, now: nat, still: bool)
    requires goal > 0
    ensures RoundsRun([chains], chains, chains, strength, goal, now, still, false)
  {
  }

  lemma OneMoreRound(tables: seq<seq<seq<Rtable>>>, before: seq<seq<Rtable>>, was: seq<seq<Rtable>>, chains: seq<seq<Rtable>>,
                     strength: nat, goal: int, now: nat, still: bool, from: nat, visited: nat, since: nat, until: nat)
    requires RoundsRun(tables, before, was, strength, goal, now, still, false)
    requires Swept(was, chains, from, visited, Collector(Halved(strength, |tables| - 1)), since, until)
    requires since >= now && (still ==> until == now)
    requires Total(before) - Total(chains) < goal ==> visited >= |was|
    ensures RoundsRun(tables + [chains], before, chains, strength, goal, now, still, Total(before) - Total(chains) >= goal)
  {
    hide Entries, Swept, Halved, Total;
    var t, met := tables + [chains], Total(before) - Total(chains) >= goal;
    EarlierSwept(was, chains, from, visited, Collector(Halved(strength, |tables| - 1)), now, since, until);
    forall r | 0 <= r < |tables|
      ensures OneRound(t[r], t[r + 1], Halved(strength, r), now, still, !met || r < |tables| - 1)
    {
      assert r < |tables| - 1 ==> t[r] == tables[r] && t[r + 1] == tables[r + 1];
    }
  }

  lemma EarlierSwept(before: seq<seq<Rtable>>, after: seq<seq<Rtable>>, from: nat, visited: nat,
                     sw: Sweeper, earlier: nat, since: nat, until: nat)
    requires Swept(before, after, from, visited, sw, since, until) && earlier <= since
    ensures Swept(before, after, from, visited, sw, earlier, until)
  {
    hide Sweep;
  }

  /** A complete round leaves nothing overdue at its strength. */
  lemma CompleteRound(before: seq<seq<Rtable>>, after: seq<seq<Rtable>>, strength: nat, now: nat, still: bool)
    requires OneRound(before, after, strength, now, still, true)
    ensures forall b :: 0 <= b < |after| ==> NoneOverdue(after[b], strength, now)
  {
    hide Sweep, Turn;
    forall b | 0 <= b < |after| ensures NoneOverdue(after[b], strength, now) {
      var from: nat, visited: nat, until: nat :| Swept(before, after, from, visited, Collector(strength), now, until)
        && (still ==> until == now) && visited >= |before|;
      assert Turn(from, b, |before|) <= visited;
      var at: nat :| now <= at <= until && after[b] == Sweep(before[b], strength, Collector(strength), at);
      StrengthBounds(before[b], strength, strength, at);
    }
  }

  /** After rounds that missed the goal nothing is overdue at the strength of the last. */
  lemma RoundsLeave(tables: seq<seq<seq<Rtable>>>, before: seq<seq<Rtable>>, after: seq<seq<Rtable>>,
                    strength: nat, goal: int, now: nat, still: bool)
    requires RoundsRun(tables, before, after, strength, goal, now, still, false) && |tables| > 1
    ensures var last := Halved(strength, |tables| - 2);
      last <= strength && forall b :: 0 <= b < |after| ==>
        NoneOverdue(after[b], last, now) && NoneOverdue(after[b], strength, now)
  {
    hide OneRound, Total;
    var n := |tables| - 2;
    CompleteRound(tables[n], tables[n + 1], Halved(strength, n), now, still);
    HalvedLess(strength, n);
  }

  lemma RoundsCount(tables: seq<seq<seq<Rtable>>>, before: seq<seq<Rtable>>, after: seq<seq<Rtable>>,
                    strength: nat, goal: int, now: nat, still: bool, met: bool)
    requires RoundsRun(tables, before, after, strength, goal, now, still, met)
    ensures met <==> Total(before) - Total(after) >= goal
  {
  }

  lemma {:induction false} HalvedLess(t: nat, n: nat)
    ensures Halved(t, n) <= t
  {
    if n > 0 {
      HalvedLess(t / 2, n - 1);
    }
  }

  lemma {:induction false} HalvedAgain(t: nat, n: nat)
    ensures Halved(t, 0) == t && Halved(t, n + 1) == Halved(t, n) / 2
  {
    if n > 0 {
      HalvedAgain(t / 2, n - 1);
    }
  }

  lemma Still(passes: nat -> nat, n: nat)
    requires StandsStill(passes)
    ensures passes(n) == 0
  {
  }

  /** After n rounds that missed the goal the collector goes on. */
  predicate GoesOn(n: nat, strength: nat, softirq: bool, maxSize: nat, seen: Readings) {
    n > 0 ==> !softirq && forall r :: 0 <= r < n ==> Halved(strength, r) > 0 && seen.afterRound(r) >= maxSize
  }

  /** How the collector ends after n rounds: as soon as the goal is met; or when there is room
      after halving; or when it cannot go on because it has no patience left, is in an
      interrupt or the clock has moved, with or without room by then. */
  ghost predicate Ends(outcome: Outcome, n: int, strength: nat, softirq: bool, maxSize: nat, seen: Readings) {
    && n > 0 && GoesOn(n - 1, strength, softirq, maxSize, seen) && outcome in {GoalMet, Room, Overflow}
    && var roomAfter := Halved(strength, n - 1) > 0 && seen.afterRound(n - 1) < maxSize;
      && (outcome == Overflow ==> !roomAfter && seen.atEnd >= maxSize)
      && (outcome == Room ==> roomAfter || seen.atEnd < maxSize)
      && (outcome != GoalMet ==> roomAfter || Halved(strength, n - 1) == 0 || softirq || !StandsStill(seen.passes))
  }

  lemma StartGoing(strength: nat, softirq: bool, maxSize: nat, seen: Readings)
    ensures GoesOn(0, strength, softirq, maxSize, seen)
  {
  }

  lemma KeepGoing(n: nat, strength: nat, softirq: bool, maxSize: nat, seen: Readings)
    requires n > 0 && GoesOn(n - 1, strength, softirq, maxSize, seen) && !softirq
    requires Halved(strength, n - 1) > 0 && seen.afterRound(n - 1) >= maxSize
    ensures GoesOn(n, strength, softirq, maxSize, seen)
  {
  }

  lemma Ended(outcome: Outcome, n: nat, strength: nat, softirq: bool, maxSize: nat, seen: Readings)
    requires n > 0 && GoesOn(n - 1, strength, softirq, maxSize, seen) && outcome in {GoalMet, Room, Overflow}
    requires outcome == Overflow ==>
      (Halved(strength, n - 1) == 0 || seen.afterRound(n - 1) >= maxSize) && seen.atEnd >= maxSize
    requires outcome == Room ==>
      (Halved(strength, n - 1) > 0 && seen.afterRound(n - 1) < maxSize) || seen.atEnd < maxSize
    requires outcome == GoalMet || (Halved(strength, n - 1) > 0 && seen.afterRound(n - 1) < maxSize)
             || Halved(strength, n - 1) == 0 || softirq || !StandsStill(seen.passes)
    ensures Ends(outcome, n, strength, softirq, maxSize, seen)
  {
  }

  /** Thinned out once more, of what is idle now. */
  lemma ThinnedAgain(before: seq<seq<Rtable>>, was: seq<seq<Rtable>>, chains: seq<seq<Rtable>>, idle: set<Rtable>)
    requires AllThinned(before, was, idle) && idle == Idle(before) && AllThinned(was, chains, Idle(was))
    ensures AllThinned(before, chains, idle)
  {
    hide Thinned, Entries;
    ThinnedEntries(before, was, idle);
    forall b | 0 <= b < |before| ensures Thinned(before[b], chains[b], idle) {
      ThinnedMore(was[b], chains[b], Idle(was), idle);
      ThinnedTrans(before[b], was[b], chains[b], idle);
    }
  }

  lemma {:induction false} ThinnedMore(c: seq<Rtable>, d: seq<Rtable>, idle: set<Rtable>, more: set<Rtable>)
    requires Thinned(c, d, idle) && idle <= more
    ensures Thinned(c, d, more)
  {
    if c != [] {
      if d != [] && d[0] == c[0] && Thinned(c[1..], d[1..], idle) {
        ThinnedMore(c[1..], d[1..], idle, more);
      } else {
        ThinnedMore(c[1..], d, idle, more);
      }
    }
  }

  function Times(n: nat, t: nat): nat {
    n * t
  }

  lemma NoTimes(t: nat, n: nat, u: nat)
    ensures Times(0, t) == 0 <= Times(n, u)
  {
  }

  lemma OnceMore(n: nat, t: nat)
    ensures Times(n + 1, t) == Times(n, t) + t
  {
  }

  /** The how-manieth bucket b is when a round begins after `start` */
  function Turn(start: nat, b: nat, size: nat): (turn: nat)
    requires b < size
    ensures 0 < turn <= size
  {
    var s := Rest(start, size);
    if b > s then b - s else b + size - s
  }

  function Rest(n: nat, size: nat): (r: nat)
    requires size > 0
    ensures r < size && (n < size ==> r == n)
  {
    n % size
  }

  lemma NextBucket(start: nat, k: nat, done: nat, size: nat)
    requires done <= size && size > 0
    requires if done == 0 then k == start else k < size && Turn(start, k, size) == done
    ensures Turn(start, (k + 1) % size, size) == if done < size then done + 1 else 1
    ensures forall b :: 0 <= b < size && Turn(start, b, size) == done + 1 ==> b == (k + 1) % size
  {
    hide Rest;
    ModNext(k, size);
  }

  lemma ModNext(k: nat, size: nat)
    requires size > 0
    ensures (k + 1) % size == if Rest(k, size) == size - 1 then 0 else Rest(k, size) + 1
  {
    var q, r := k / size, k % size;
    assert k == q * size + r;
    if r == size - 1 {
      assert k + 1 == (q + 1) * size;
      Multiple(q + 1, 0, size);
    } else {
      Multiple(q, r + 1, size);
    }
  }

  lemma Multiple(q: nat, r: nat, size: nat)
    requires r < size
    ensures (q * size + r) % size == r
  {
    var n := q * size + r;
    assert n == (n / size) * size + n % size;
    OneQuotient(n / size, n % size, q, r, size);
    OneQuotient(q, r, n / size, n % size, size);
  }

  lemma OneQuotient(a: nat, r: nat, b: nat, t: nat, size: nat)
    requires r < size && t < size && a * size + r == b * size + t
    ensures a <= b
  {
    if a > b {
      assert a * size == (a - b) * size + b * size;
      AtLeast(a - b, size);
    }
  }

  lemma AtLeast(n: nat, size: nat)
    requires n > 0
    ensures n * size >= size
  {
  }
}
