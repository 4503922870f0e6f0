/** Entries of the route cache, their keys and hash buckets, and which of them may expire. */
module RouteEntries {
  import opened Powers

  /** struct rt_key; an input key has a non-zero iif and oif 0, an output key has iif 0. */
  datatype RtKey = RtKey(dst: bv32, src: bv32, iif: bv32, oif: bv32, tos: bv8, fwmark: bv32)

  /** What a cache entry says about the way of a packet, as far as the cache looks at it. */
  datatype Route = Route(
    unicast: bool, broadcast: bool, multicast: bool, redirected: bool, notify: bool,
    gateway: bv32, dst: bv32, src: bv32, dev: nat, error: nat)

  /** rt_hash_code; masking with size - 1, for a size that is a power of two, is % size. */
  function HashCode(daddr: bv32, saddr: bv32, tos: bv8, size: nat): (h: nat)
    requires size > 0
    ensures h < size
  {
    var swapped := ((daddr & 0xF0F0F0F0) >> 4) | ((daddr & 0x0F0F0F0F) << 4);
    var h1 := swapped ^ saddr ^ (tos as bv32);
    var h2 := h1 ^ (h1 >> 16);
    (h2 ^ (h2 >> 8)) as nat % size
  }

  /** The bucket a key is looked up in: by interface in for input keys, out for output keys. */
  function Bucket(key: RtKey, size: nat): (h: nat)
    requires size > 0
    ensures h < size
  {
    HashCode(key.dst, key.src ^ ((if key.iif != 0 then key.iif else key.oif) << 5), key.tos, size)
  }

  /** struct rtable. Key and route are set before an entry is interned and not changed after. */
  class Rtable {
    const key: RtKey
    const route: Route
    var expires: nat
    var lastuse: nat
    var refcnt: nat
    var uses: nat
    var next: Rtable?

    constructor (key: RtKey, route: Route, expires: nat, lastuse: nat)
      ensures this.key == key && this.route == route && this.expires == expires
      ensures this.lastuse == lastuse && refcnt == 1
    {
      this.key, this.route, this.expires, this.lastuse := key, route, expires, lastuse;
      refcnt, uses, next := 1, 0, null;
    }
  }

  predicate Valuable(e: Rtable)
    reads e`expires
  {
    e.route.redirected || e.route.notify || e.expires != 0
  }

  predicate FastClean(e: Rtable, hasNext: bool) {
    (e.route.broadcast || e.route.multicast) && e.key.iif != 0 && hasNext
  }

  /** rt_may_expire; an entry in use never may. */
  predicate MayExpire(e: Rtable, hasNext: bool, tmo1: int, tmo2: int, now: nat)
    reads e`refcnt, e`expires, e`lastuse
    ensures MayExpire(e, hasNext, tmo1, tmo2, now) ==> e.refcnt == 0
  {
    e.refcnt == 0 &&
    ((e.expires != 0 && e.expires <= now) ||
     (var age := now - e.lastuse;
      !((age <= tmo1 && !FastClean(e, hasNext)) || (age <= tmo2 && Valuable(e)))))
  }

  /** Which entries may expire, spelled out: idle ones past their expiry; and idle ones that the
      short patience does not protect (it protects no broadcast or multicast input route with
      another entry behind it), nor the long one (it protects redirected, notifying and expiring
      routes only). */
  lemma MayExpireMeans(e: Rtable, hasNext: bool, tmo1: int, tmo2: int, now: nat)
    ensures
      var age := now - e.lastuse;
      MayExpire(e, hasNext, tmo1, tmo2, now) <==>
        && e.refcnt == 0
        && ((0 < e.expires <= now) ||
            ((age > tmo1 || ((e.route.broadcast || e.route.multicast) && e.key.iif != 0 && hasNext)) &&
             (age > tmo2 || (!e.route.redirected && !e.route.notify && e.expires == 0))))
  {
  }

  /** The two sweeps over a bucket: the garbage collector's with its current strength, and
      the periodic one. */
  datatype Sweeper = Collector(expire: nat) | Periodic(timeout: nat, started: nat)

  function Strength(sw: Sweeper): nat {
    match sw
    case Collector(expire) => expire
    case Periodic(timeout, started) => timeout
  }

  /** Does the sweep unlink the entry? The periodic sweep drops expired entries even in use. */
  predicate Dies(e: Rtable, hasNext: bool, tmo: nat, sw: Sweeper, now: nat)
    reads e`refcnt, e`expires, e`lastuse
  {
    match sw
    case Collector(expire) => MayExpire(e, hasNext, tmo, expire, now)
    case Periodic(timeout, started) =>
      if e.expires != 0 then started > e.expires else MayExpire(e, hasNext, tmo, timeout, now)
  }

  lemma DiesMeans(e: Rtable, hasNext: bool, tmo: nat, sw: Sweeper, now: nat)
    ensures sw.Collector? ==> Dies(e, hasNext, tmo, sw, now) == MayExpire(e, hasNext, tmo, sw.expire, now)
    ensures sw.Periodic? && e.expires != 0 ==> Dies(e, hasNext, tmo, sw, now) == (sw.started > e.expires)
    ensures sw.Periodic? && e.expires == 0 ==> Dies(e, hasNext, tmo, sw, now) == MayExpire(e, hasNext, tmo, sw.timeout, now)
  {
  }

  /** t halved n times */
  function Halved(t: nat, n: nat): nat {
    if n == 0 then t else Halved(t / 2, n - 1)
  }

  lemma {:induction false} HalvedMeans(t: nat, n: nat)
    ensures Halved(t, n) * Power2(n) <= t < (Halved(t, n) + 1) * Power2(n)
  {
    if n > 0 {
      HalvedMeans(t / 2, n - 1);
      Doubled(Halved(t, n), Power2(n - 1));
      Doubled(Halved(t, n) + 1, Power2(n - 1));
    }
  }

  lemma Doubled(h: nat, p: nat)
    ensures h * (2 * p) == 2 * (h * p)
  {
  }

  /** The only entries a sweep may take: the collector's those not in use, the periodic one's
      also those past their expiry. */
  predicate Removable(e: Rtable, sw: Sweeper)
    reads e`refcnt, e`expires
  {
    e.refcnt == 0 || (sw.Periodic? && e.expires != 0 && sw.started > e.expires)
  }

  /** What a sweep leaves of a chain: every survivor halves the patience with the rest. */
  function Sweep(c: seq<Rtable>, tmo: nat, sw: Sweeper, now: nat): seq<Rtable>
    reads (set e | e in c)`refcnt, (set e | e in c)`expires, (set e | e in c)`lastuse
  {
    if c == [] then []
    else if Dies(c[0], |c| > 1, tmo, sw, now) then Sweep(c[1..], tmo, sw, now)
    else [c[0]] + Sweep(c[1..], tmo / 2, sw, now)
  }
}

/** Chains as sequences: what unlinking, thinning out and moving to the front mean. */
module RouteChains {
  import opened RouteEntries

  function Without<T>(c: seq<T>, i: nat): seq<T>
    requires i < |c|
  {
    c[..i] + c[i + 1..]
  }

  /** Every entry is in the bucket its key hashes to, and no two in a bucket share a key;
      so no two in the whole table do. */
  ghost predicate Filed(chains: seq<seq<Rtable>>) {
    && |chains| > 0
    && (forall b, i :: 0 <= b < |chains| && 0 <= i < |chains[b]| ==> Bucket(chains[b][i].key, |chains|) == b)
    && forall b, i, j :: 0 <= b < |chains| && 0 <= i < j < |chains[b]| ==> chains[b][i].key != chains[b][j].key
  }

  lemma NoKeyTwice(chains: seq<seq<Rtable>>, a: nat, i: nat, b: nat, j: nat)
    requires Filed(chains) && a < |chains| && b < |chains| && i < |chains[a]| && j < |chains[b]|
    requires chains[a][i].key == chains[b][j].key
    ensures a == b && i == j
  {
    assert Bucket(chains[a][i].key, |chains|) == a && Bucket(chains[b][j].key, |chains|) == b;
  }

  /** `after` is `before` with some of the entries in `idle` left out; the rest keep their order. */
  ghost predicate Thinned(before: seq<Rtable>, after: seq<Rtable>, idle: set<Rtable>) {
    if before == [] then after == []
    else
      || (after != [] && after[0] == before[0] && Thinned(before[1..], after[1..], idle))
      || (before[0] in idle && Thinned(before[1..], after, idle))
  }

  lemma {:induction false} ThinnedSame(c: seq<Rtable>, idle: set<Rtable>)
    ensures Thinned(c, c, idle)
  {
    if c != [] {
      ThinnedSame(c[1..], idle);
    }
  }

  lemma {:induction false} ThinnedTrans(a: seq<Rtable>, b: seq<Rtable>, c: seq<Rtable>, idle: set<Rtable>)
    requires Thinned(a, b, idle) && Thinned(b, c, idle)
    ensures Thinned(a, c, idle)
    decreases |a| + |b|
  {
    if a != [] {
      if b != [] && b[0] == a[0] && Thinned(a[1..], b[1..], idle) {
        if c != [] && c[0] == b[0] && Thinned(b[1..], c[1..], idle) {
          ThinnedTrans(a[1..], b[1..], c[1..], idle);
        } else {
          ThinnedTrans(a[1..], b[1..], c, idle);
        }
      } else {
        ThinnedTrans(a[1..], b, c, idle);
      }
    }
  }

  /** What is left was there before; what is gone was idle. */
  lemma {:induction false} ThinnedMembers(before: seq<Rtable>, after: seq<Rtable>, idle: set<Rtable>)
    requires Thinned(before, after, idle)
    ensures forall e :: e in after ==> e in before
    ensures forall e :: e in before && e !in idle ==> e in after
    ensures |after| <= |before|
  {
    if before != [] {
      if after != [] && after[0] == before[0] && Thinned(before[1..], after[1..], idle) {
        ThinnedMembers(before[1..], after[1..], idle);
        assert before == [before[0]] + before[1..] && after == [after[0]] + after[1..];
      } else {
        ThinnedMembers(before[1..], after, idle);
        assert before == [before[0]] + before[1..];
      }
    }
  }

  /** The position of each survivor in the old chain increases along the new one. */
  lemma {:induction false} ThinnedKeepsOrder(before: seq<Rtable>, after: seq<Rtable>, idle: set<Rtable>, i: nat, j: nat)
    returns (i': nat, j': nat)
    requires Thinned(before, after, idle) && i < j < |after|
    ensures i' < j' < |before| && before[i'] == after[i] && before[j'] == after[j]
  {
    if after != [] && after[0] == before[0] && Thinned(before[1..], after[1..], idle) {
      if i == 0 {
        ThinnedMembers(before[1..], after[1..], idle);
        assert after[j] == after[1..][j - 1] && after[j] in before[1..];
        var k :| 0 <= k < |before[1..]| && before[1..][k] == after[j];
        i', j' := 0, k + 1;
      } else {
        i', j' := ThinnedKeepsOrder(before[1..], after[1..], idle, i - 1, j - 1);
        i', j' := i' + 1, j' + 1;
      }
    } else {
      i', j' := ThinnedKeepsOrder(before[1..], after, idle, i, j);
      i', j' := i' + 1, j' + 1;
    }
  }

  predicate Among(part: seq<Rtable>, whole: seq<Rtable>) {
    forall e :: e in part ==> e in whole
  }

  lemma SweepHead(c: seq<Rtable>, tmo: nat, sw: Sweeper, now: nat)
    requires c != []
    ensures Sweep(c, tmo, sw, now) ==
            if Dies(c[0], |c| > 1, tmo, sw, now) then Sweep(c[1..], tmo, sw, now)
            else [c[0]] + Sweep(c[1..], tmo / 2, sw, now)
  {
    hide Dies;
  }

  /** What becomes of entry i: with n entries before it kept, the patience is down to tmo
      halved n times, and with that the entry goes, or is kept as the n-th. */
  lemma {:induction false} Fate(c: seq<Rtable>, tmo: nat, sw: Sweeper, now: nat, i: nat) returns (n: nat)
    requires i < |c|
    ensures var s := Sweep(c, tmo, sw, now);
      && n <= |s| && Among(s[..n], c[..i])
      && if Dies(c[i], i + 1 < |c|, Halved(tmo, n), sw, now) then Among(s[n..], c[i + 1..])
         else n < |s| && s[n] == c[i] && Among(s[n + 1..], c[i + 1..])
  {
    hide Dies, Sweep;
    SweepHead(c, tmo, sw, now);
    var s: seq<Rtable>, goes := Sweep(c, tmo, sw, now), Dies(c[0], |c| > 1, tmo, sw, now);
    if i == 0 {
      n := 0;
      var rest: seq<Rtable> := if goes then s else s[1..];
      SweptMembers(c[1..], if goes then tmo else tmo / 2, sw, now);
    } else if goes {
      n := Fate(c[1..], tmo, sw, now, i - 1);
      assert c[..i] == [c[0]] + c[1..][..i - 1];
      assert c[1..][i - 1 + 1..] == c[i + 1..];
    } else {
      var m := Fate(c[1..], tmo / 2, sw, now, i - 1);
      n := m + 1;
      var t: seq<Rtable> := Sweep(c[1..], tmo / 2, sw, now);
      assert s == [c[0]] + t && s[n..] == t[m..] && s[..n] == [c[0]] + t[..m];
      assert m < |t| ==> s[n + 1..] == t[m + 1..];
      assert c[1..][i - 1 + 1..] == c[i + 1..];
      assert c[..i] == [c[0]] + c[1..][..i - 1];
    }
  }

  lemma {:induction false} SweptMembers(c: seq<Rtable>, tmo: nat, sw: Sweeper, now: nat)
    ensures Among(Sweep(c, tmo, sw, now), c)
  {
    hide Dies;
    if c != [] {
      SweptMembers(c[1..], tmo, sw, now);
      SweptMembers(c[1..], tmo / 2, sw, now);
      assert c == [c[0]] + c[1..];
    }
  }

  /** A young idle entry stays, and a valuable one within the strength, unless expired. */
  lemma YoungStays(c: seq<Rtable>, tmo: nat, expire: nat, now: nat, i: nat) returns (n: nat)
    requires i < |c|
    ensures var s := Sweep(c, tmo, Collector(expire), now);
      && n <= |s| && Among(s[..n], c[..i])
      && (var e := c[i];
          (e.refcnt > 0 || ((e.expires == 0 || e.expires > now) &&
             ((now - e.lastuse <= Halved(tmo, n) && !e.route.broadcast && !e.route.multicast) ||
              (now - e.lastuse <= expire && (e.route.redirected || e.route.notify || e.expires != 0)))) ==>
           n < |s| && s[n] == e))
  {
    hide Sweep, MayExpire, Dies;
    n := Fate(c, tmo, Collector(expire), now, i);
    DiesMeans(c[i], i + 1 < |c|, Halved(tmo, n), Collector(expire), now);
    MayExpireMeans(c[i], i + 1 < |c|, Halved(tmo, n), expire, now);
  }

  /** A sweep only takes removable entries, and keeps the rest in order. */
  lemma {:induction false} SweepThins(c: seq<Rtable>, tmo: nat, sw: Sweeper, now: nat, idle: set<Rtable>)
    requires forall e :: e in c && Removable(e, sw) ==> e in idle
    ensures Thinned(c, Sweep(c, tmo, sw, now), idle)
  {
    if c != [] {
      assert c[0] in c;
      if Dies(c[0], |c| > 1, tmo, sw, now) {
        SweepThins(c[1..], tmo, sw, now, idle);
      } else {
        SweepThins(c[1..], tmo / 2, sw, now, idle);
        assert Sweep(c, tmo, sw, now)[1..] == Sweep(c[1..], tmo / 2, sw, now);
      }
    }
  }

  /** In use, or used at `since` or later */
  predicate Busy(e: Rtable, since: nat)
    reads e`refcnt, e`lastuse
  {
    e.refcnt > 0 || e.lastuse >= since
  }

  /** Whatever else protects an entry, the collector leaves none that is idle and expired, or
      idle and unused for longer than its current strength. */
  lemma {:induction false} StrengthBounds(c: seq<Rtable>, tmo: nat, expire: nat, now: nat)
    requires tmo <= expire
    ensures forall e :: e in Sweep(c, tmo, Collector(expire), now) && e.refcnt == 0 ==>
      now - e.lastuse <= expire && (e.expires == 0 || e.expires > now)
  {
    if c != [] {
      StrengthBounds(c[1..], tmo, expire, now);
      StrengthBounds(c[1..], tmo / 2, expire, now);
      var rest: seq<Rtable> := Sweep(c[1..], tmo / 2, Collector(expire), now);
      if !Dies(c[0], |c| > 1, tmo, Collector(expire), now) {
        assert forall e :: e in [c[0]] + rest ==> e == c[0] || e in rest;
      }
    }
  }

  /** A collector out of patience leaves nothing but busy entries. */
  lemma NoPatience(c: seq<Rtable>, now: nat, since: nat)
    requires since <= now
    ensures forall e :: e in Sweep(c, 0, Collector(0), now) ==> Busy(e, since)
  {
    hide Sweep;
    StrengthBounds(c, 0, 0, now);
  }

  /** The periodic sweep leaves no expired entry in the bucket. */
  lemma {:induction false} NoneExpired(c: seq<Rtable>, tmo: nat, timeout: nat, started: nat, now: nat)
    ensures forall e :: e in Sweep(c, tmo, Periodic(timeout, started), now) ==> e.expires == 0 || e.expires >= started
  {
    if c != [] {
      NoneExpired(c[1..], tmo, timeout, started, now);
      NoneExpired(c[1..], tmo / 2, timeout, started, now);
      var rest: seq<Rtable> := Sweep(c[1..], tmo / 2, Periodic(timeout, started), now);
      assert forall e :: e in [c[0]] + rest ==> e == c[0] || e in rest;
    }
  }

  /** All chains thinned out. */
  ghost predicate AllThinned(before: seq<seq<Rtable>>, after: seq<seq<Rtable>>, idle: set<Rtable>) {
    |before| == |after| && forall b :: 0 <= b < |before| ==> Thinned(before[b], after[b], idle)
  }

  lemma AllThinnedSame(chains: seq<seq<Rtable>>, idle: set<Rtable>)
    ensures AllThinned(chains, chains, idle)
  {
    forall b | 0 <= b < |chains| ensures Thinned(chains[b], chains[b], idle) {
      ThinnedSame(chains[b], idle);
    }
  }

  lemma AllThinnedStep(before: seq<seq<Rtable>>, chains: seq<seq<Rtable>>, b: nat, c: seq<Rtable>, idle: set<Rtable>)
    requires AllThinned(before, chains, idle) && b < |chains| && Thinned(chains[b], c, idle)
    ensures AllThinned(before, chains[b := c], idle)
  {
    ThinnedTrans(before[b], chains[b], c, idle);
  }

  function Total(chains: seq<seq<Rtable>>): nat {
    if chains == [] then 0 else Total(chains[..|chains| - 1]) + |chains[|chains| - 1]|
  }

  lemma {:induction false} TotalUpdate(chains: seq<seq<Rtable>>, b: nat, c: seq<Rtable>)
    requires b < |chains|
    ensures Total(chains[b := c]) == Total(chains) - |chains[b]| + |c|
  {
    var last := |chains| - 1;
    if b == last {
      assert chains[b := c][..last] == chains[..last];
    } else {
      assert chains[b := c][..last] == chains[..last][b := c];
      TotalUpdate(chains[..last], b, c);
    }
  }
}
