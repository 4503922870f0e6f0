/** The route cache: a hash table of chains linked through rt_next. The ghost field `chains`
    lists each bucket's entries; every operation relinks the entries in place. Buckets are
    locked, so each operation on a bucket is one step. */
module RouteCache {
  import opened RouteEntries
  import opened RouteChains

  /** head and the next fields spell the chain. */
  ghost predicate Chained(head: Rtable?, c: seq<Rtable>)
    reads (set e | e in c)`next
  {
    && head == (if c == [] then null else c[0])
    && forall i :: 0 <= i < |c| ==> c[i].next == Following(c, i)
  }

  function Following(c: seq<Rtable>, i: nat): Rtable?
    requires i < |c|
  {
    if i + 1 < |c| then c[i + 1] else null
  }

  ghost function Entries(chains: seq<seq<Rtable>>): set<Rtable> {
    set b, i | 0 <= b < |chains| && 0 <= i < |chains[b]| :: chains[b][i]
  }

  lemma EntriesContain(chains: seq<seq<Rtable>>)
    ensures forall b, i :: 0 <= b < |chains| && 0 <= i < |chains[b]| ==> chains[b][i] in Entries(chains)
  {
  }

  class Cache {
    const table: array<Rtable?>
    ghost var chains: seq<seq<Rtable>>

    ghost predicate Valid()
      reads this, table, Entries(chains)`next
    {
      && table.Length == |chains| > 0
      && Filed(chains)
      && (EntriesContain(chains); AllChained())
    }

    ghost predicate AllChained()
      requires table.Length == |chains|
      requires forall b, i :: 0 <= b < |chains| && 0 <= i < |chains[b]| ==> chains[b][i] in Entries(chains)
      reads this, table, Entries(chains)`next
    {
      forall b :: 0 <= b < |chains| ==> Chained(table[b], chains[b])
    }

    constructor (size: nat)
      requires size > 0
      ensures Valid() && chains == seq(size, _ => [])
      ensures fresh(table)
    {
      table := new Rtable?[size](_ => null);
      chains := seq(size, _ => []);
    }

    /** *rthp = rth->u.rt_next, where rthp is the head of bucket b or the next field of prev */
    method Unlink(b: nat, prev: Rtable?, cur: Rtable, ghost i: nat)
      requires Valid() && b < table.Length && i < |chains[b]| && cur == chains[b][i]
      requires prev == if i == 0 then null else chains[b][i - 1]
      modifies this`chains, table, (if prev == null then {} else {prev})`next
      ensures Valid() && chains == old(chains)[b := Without(old(chains[b]), i)]
    {
      hide Filed, Without, Entries, Chained;
      EntriesContain(chains);
      ghost var c: seq<Rtable>, before: seq<seq<Rtable>> := chains[b], chains;
      Apart(chains, b);
      UnlinkIn(b, prev, cur, c, i);
      WithoutFiled(chains, b, i);
      OnlyThisBucket(before, b, prev);
      chains := chains[b := Without(c, i)];
      EntriesContain(chains);
    }

    method UnlinkIn(b: nat, prev: Rtable?, cur: Rtable, ghost c: seq<Rtable>, ghost i: nat)
      requires b < table.Length && Chained(table[b], c) && i < |c| && cur == c[i]
      requires forall j, k :: 0 <= j < k < |c| ==> c[j] != c[k]
      requires prev == if i == 0 then null else c[i - 1]
      modifies table, (if prev == null then {} else {prev})`next
      ensures Chained(table[b], Without(c, i))
      ensures forall a :: 0 <= a < table.Length && a != b ==> table[a] == old(table[a])
    {
      if prev == null {
        table[b] := cur.next;
      } else {
        assert prev in c;
        prev.next := cur.next;
      }
      ghost var c' := Without(c, i);
      forall k | 0 <= k < |c'| ensures c'[k].next == Following(c', k) {
        if k < i {
          assert c'[k] == c[k];
          assert old(c[k].next) == Following(c, k);
        } else {
          assert c'[k] == c[k + 1];
          assert old(c[k + 1].next) == Following(c, k + 1);
        }
      }
      assert old(c[i].next) == Following(c, i);
    }

    /** rt->u.rt_next = chain; chain = rt */
    method PushFront(b: nat, e: Rtable)
      requires Valid() && b < table.Length && Bucket(e.key, |chains|) == b
      requires forall i :: 0 <= i < |chains[b]| ==> chains[b][i].key != e.key
      modifies this`chains, table, e`next
      ensures Valid() && chains == old(chains)[b := [e] + old(chains[b])]
    {
      hide Filed, Entries, Bucket;
      EntriesContain(chains);
      ghost var c: seq<Rtable>, before: seq<seq<Rtable>> := chains[b], chains;
      NewToAll(chains, b, e);
      e.next := table[b];
      table[b] := e;
      PushChained(before[b], e, table[b]);
      PushFiled(before, b, e);
      chains := chains[b := [e] + c];
      EntriesContain(chains);
    }

    /** Put it first: an entry found in its bucket moves to the head of the chain. */
    method MoveToFront(b: nat, prev: Rtable?, cur: Rtable, ghost i: nat)
      requires Valid() && b < table.Length && i < |chains[b]| && cur == chains[b][i]
      requires prev == if i == 0 then null else chains[b][i - 1]
      modifies this`chains, table, (if prev == null then {cur} else {prev, cur})`next
      ensures Valid() && chains == old(chains)[b := [cur] + Without(old(chains)[b], i)]
    {
      hide Filed, Without, Entries, Chained, AllChained, Bucket;
      KeyGoneWithout(chains, b, i);
      Unlink(b, prev, cur, i);
      PushFront(b, cur);
    }

    /** The search loops over a bucket: the entry with this key, and the one before it. */
    method Find(b: nat, key: RtKey) returns (prev: Rtable?, cur: Rtable?, ghost i: nat)
      requires Valid() && b < table.Length
      ensures Valid()
      ensures cur == null ==> forall j :: 0 <= j < |chains[b]| ==> chains[b][j].key != key
      ensures cur != null ==>
        && i < |chains[b]| && cur == chains[b][i] && cur.key == key
        && prev == if i == 0 then null else chains[b][i - 1]
    {
      hide Filed, Entries;
      EntriesContain(chains);
      prev, cur, i := null, table[b], 0;
      while cur != null
        invariant i <= |chains[b]|
        invariant cur == if i < |chains[b]| then chains[b][i] else null
        invariant prev == if i == 0 then null else chains[b][i - 1]
        invariant forall j :: 0 <= j < i ==> chains[b][j].key != key
        decreases |chains[b]| - i
      {
        if cur.key == key {
          return;
        }
        prev := cur;
        cur := cur.next;
        i := i + 1;
      }
    }

    /** The search of rt_del: the entry itself in bucket b, and the one before it. */
    method FindEntry(b: nat, e: Rtable) returns (found: bool, prev: Rtable?, ghost i: nat)
      requires Valid() && b < table.Length
      ensures Valid() && (found <==> e in chains[b])
      ensures found ==> i < |chains[b]| && e == chains[b][i] && prev == if i == 0 then null else chains[b][i - 1]
    {
      hide Filed, Entries;
      EntriesContain(chains);
      var cur: Rtable?;
      prev, cur, i := null, table[b], 0;
      while cur != null
        invariant i <= |chains[b]|
        invariant cur == if i < |chains[b]| then chains[b][i] else null
        invariant prev == if i == 0 then null else chains[b][i - 1]
        invariant forall j :: 0 <= j < i ==> chains[b][j] != e
        decreases |chains[b]| - i
      {
        if cur == e {
          return true, prev, i;
        }
        prev := cur;
        cur := cur.next;
        i := i + 1;
      }
      found := false;
    }

    /** One turn of the loop that both sweeps run over a bucket: unlink the entry or pass it over. */
    method SweepOne(b: nat, prev: Rtable?, cur: Rtable, tmo: nat, sw: Sweeper, now: nat,
                    ghost kept: seq<Rtable>, ghost rest: seq<Rtable>)
      returns (dead: bool, following: Rtable?)
      requires Valid() && b < table.Length && chains[b] == kept + rest && rest != [] && cur == rest[0]
      requires prev == if kept == [] then null else kept[|kept| - 1]
      modifies this`chains, table, (if prev == null then {} else {prev})`next
      ensures Valid() && chains == old(chains)[b := if dead then kept + rest[1..] else kept + rest]
      ensures dead == Dies(cur, |rest| > 1, tmo, sw, now)
      ensures following == if |rest| > 1 then rest[1] else null
    {
      hide Filed, Entries, Chained, Dies;
      assert chains[b][|kept|] == cur && (kept != [] ==> chains[b][|kept| - 1] == prev);
      assert |rest| > 1 ==> chains[b][|kept| + 1] == rest[1];
      following := NextOf(b, cur, |kept|);
      dead := Dies(cur, following != null, tmo, sw, now);
      if dead {
        assert Without(chains[b], |kept|) == kept + rest[1..];
        Unlink(b, prev, cur, |kept|);
      } else {
        assert chains == chains[b := kept + rest];
      }
    }

    /** The loop over one bucket that both sweeps run. The removed entries are counted. */
    method SweepBucket(b: nat, sw: Sweeper, now: nat) returns (removed: nat)
      requires Valid() && b < table.Length
      modifies this`chains, table, Entries(chains)`next
      ensures Valid() && chains == old(chains)[b := old(Sweep(chains[b], Strength(sw), sw, now))]
      ensures removed == |old(chains[b])| - |chains[b]|
    {
      hide *;
      ValidMembers(b);
      ghost var kept: seq<Rtable>, rest: seq<Rtable> := [], chains[b];
      ghost var swept: seq<Rtable> := Sweep(rest, Strength(sw), sw, now);
      assert [] + rest == rest && [] + swept == swept;
      assert chains == chains[b := rest];
      var tmo: nat := Strength(sw);
      var prev: Rtable? := null;
      var cur := Head(b);
      removed := 0;
      while cur != null
        invariant Valid() && |chains| == |old(chains)| && b < table.Length == |chains|
        invariant chains == old(chains)[b := kept + rest]
        invariant cur == if rest == [] then null else rest[0]
        invariant prev == if kept == [] then null else kept[|kept| - 1]
        invariant prev != null ==> prev in old(Entries(chains))
        invariant forall e :: e in rest ==> e in old(Entries(chains))
        invariant kept + Sweep(rest, tmo, sw, now) == swept
        invariant removed + |kept| + |rest| == |old(chains[b])|
        decreases |rest|
      {
        SweepUnfolds(kept, rest, tmo, sw, now);
        var dead, following := SweepOne(b, prev, cur, tmo, sw, now, kept, rest);
        if dead {
          removed := removed + 1;
        } else {
          tmo := tmo / 2;
          prev := cur;
          kept := kept + [cur];
        }
        rest := rest[1..];
        cur := following;
      }
      SweepsNothing(kept, tmo, sw, now);
    }

    lemma HasBuckets()
      requires Valid()
      ensures table.Length == |chains| > 0
    {
      hide Filed, Entries, Chained, AllChained;
    }

    lemma ValidMembers(b: nat)
      requires Valid() && b < table.Length
      ensures table.Length == |chains|
      ensures forall e :: e in chains[b] ==> e in Entries(chains)
    {
      hide Filed, Chained;
      EntriesContain(chains);
    }

    method Head(b: nat) returns (head: Rtable?)
      requires Valid() && b < table.Length
      ensures Valid() && head == if chains[b] == [] then null else chains[b][0]
    {
      head := table[b];
    }

    method NextOf(b: nat, e: Rtable, ghost i: nat) returns (following: Rtable?)
      requires Valid() && b < table.Length && i < |chains[b]| && e == chains[b][i]
      ensures Valid() && following == Following(chains[b], i)
    {
      hide Filed, Entries;
      EntriesContain(chains);
      assert Chained(table[b], chains[b]);
      following := e.next;
    }

    /** rt_run_flush: every bucket is emptied. */
    method RunFlush()
      requires Valid()
      modifies this`chains, table
      ensures Valid() && |chains| == |old(chains)|
      ensures forall b :: 0 <= b < |chains| ==> chains[b] == []
    {
      hide Filed, Entries;
      var i := table.Length;
      while i > 0
        invariant 0 <= i <= table.Length == |chains| && chains == old(chains)
        invariant forall b :: i <= b < table.Length ==> table[b] == null
      {
        i := i - 1;
        table[i] := null;
      }
      chains := seq(|chains|, _ => []);
      EntriesContain(chains);
      NothingFiled(chains);
    }
  }

  lemma SweepUnfolds(kept: seq<Rtable>, rest: seq<Rtable>, tmo: nat, sw: Sweeper, now: nat)
    requires rest != []
    ensures rest[0] in rest && forall e :: e in rest[1..] ==> e in rest
    ensures kept + rest == (kept + [rest[0]]) + rest[1..]
    ensures kept + Sweep(rest, tmo, sw, now) ==
            if Dies(rest[0], |rest| > 1, tmo, sw, now) then kept + Sweep(rest[1..], tmo, sw, now)
            else (kept + [rest[0]]) + Sweep(rest[1..], tmo / 2, sw, now)
  {
    hide Dies, Sweep;
    assert rest == [rest[0]] + rest[1..];
    SweepHead(rest, tmo, sw, now);
    Assoc(kept, rest[0], rest[1..]);
    Assoc(kept, rest[0], Sweep(rest[1..], tmo / 2, sw, now));
  }

  lemma Assoc<T>(a: seq<T>, x: T, b: seq<T>)
    ensures a + ([x] + b) == (a + [x]) + b
  {
  }

  lemma SweepsNothing(kept: seq<Rtable>, tmo: nat, sw: Sweeper, now: nat)
    ensures kept + [] == kept && kept + Sweep([], tmo, sw, now) == kept
  {
  }

  lemma NothingFiled(chains: seq<seq<Rtable>>)
    requires |chains| > 0 && forall b :: 0 <= b < |chains| ==> chains[b] == []
    ensures Filed(chains) && Entries(chains) == {}
  {
  }

  lemma PushChained(c: seq<Rtable>, e: Rtable, head: Rtable?)
    requires e !in c && head == e
    requires forall i :: 0 <= i < |c| ==> c[i].next == Following(c, i)
    requires e.next == if c == [] then null else c[0]
    ensures Chained(head, [e] + c)
  {
    var c' := [e] + c;
    forall i | 0 <= i < |c'| ensures c'[i].next == Following(c', i) {
      if i > 0 {
        assert c'[i] == c[i - 1] && c[i - 1].next == Following(c, i - 1);
      }
    }
  }

  lemma PushFiled(chains: seq<seq<Rtable>>, b: nat, e: Rtable)
    requires Filed(chains) && b < |chains| && Bucket(e.key, |chains|) == b
    requires forall i :: 0 <= i < |chains[b]| ==> chains[b][i].key != e.key
    ensures Filed(chains[b := [e] + chains[b]])
  {
    hide Bucket;
    var c: seq<Rtable>, chains': seq<seq<Rtable>> := [e] + chains[b], chains[b := [e] + chains[b]];
    forall a, k | 0 <= a < |chains'| && 0 <= k < |chains'[a]| ensures Bucket(chains'[a][k].key, |chains'|) == a {
      if a == b && k > 0 {
        assert c[k] == chains[b][k - 1];
      }
    }
    forall a, j, k | 0 <= a < |chains'| && 0 <= j < k < |chains'[a]| ensures chains'[a][j].key != chains'[a][k].key {
      if a == b {
        assert c[k] == chains[b][k - 1];
        assert j > 0 ==> c[j] == chains[b][j - 1];
      }
    }
  }

  /** An entry whose key is not in its bucket is nowhere in the table. */
  lemma NewToAll(chains: seq<seq<Rtable>>, b: nat, e: Rtable)
    requires Filed(chains) && b < |chains| && Bucket(e.key, |chains|) == b
    requires forall i :: 0 <= i < |chains[b]| ==> chains[b][i].key != e.key
    ensures forall a :: 0 <= a < |chains| ==> e !in chains[a]
  {
    hide Bucket;
    forall a | 0 <= a < |chains| ensures e !in chains[a] {
      forall i | 0 <= i < |chains[a]| ensures chains[a][i] != e {
        assert Bucket(chains[a][i].key, |chains|) == a;
      }
    }
  }

  /** Buckets share no entries, and no entry occurs twice. */
  lemma Apart(chains: seq<seq<Rtable>>, b: nat)
    requires Filed(chains) && b < |chains|
    ensures forall j, k :: 0 <= j < k < |chains[b]| ==> chains[b][j] != chains[b][k]
    ensures forall a, e :: 0 <= a < |chains| && a != b && e in chains[a] ==> e !in chains[b]
  {
    forall a, e | 0 <= a < |chains| && a != b && e in chains[a] ensures e !in chains[b] {
      var i :| 0 <= i < |chains[a]| && chains[a][i] == e;
      assert Bucket(chains[a][i].key, |chains|) == a;
    }
  }

  /** An entry of bucket b, or none, is in no other bucket. */
  lemma OnlyThisBucket(chains: seq<seq<Rtable>>, b: nat, e: Rtable?)
    requires Filed(chains) && b < |chains| && (e != null ==> e in chains[b])
    ensures forall a :: 0 <= a < |chains| && a != b ==> e !in chains[a]
  {
    Apart(chains, b);
  }

  lemma KeyGoneWithout(chains: seq<seq<Rtable>>, b: nat, i: nat)
    requires Filed(chains) && b < |chains| && i < |chains[b]|
    ensures Bucket(chains[b][i].key, |chains|) == b
    ensures forall j :: 0 <= j < |Without(chains[b], i)| ==> Without(chains[b], i)[j].key != chains[b][i].key
  {
    var c: seq<Rtable> := Without(chains[b], i);
    forall j | 0 <= j < |c| ensures c[j].key != chains[b][i].key {
      assert c[j] == chains[b][if j < i then j else j + 1];
    }
  }

  lemma WithoutFiled(chains: seq<seq<Rtable>>, b: nat, i: nat)
    requires Filed(chains) && b < |chains| && i < |chains[b]|
    ensures Filed(chains[b := Without(chains[b], i)])
  {
    var c: seq<Rtable>, chains': seq<seq<Rtable>> := Without(chains[b], i), chains[b := Without(chains[b], i)];
    forall a, k | 0 <= a < |chains'| && 0 <= k < |chains'[a]| ensures Bucket(chains'[a][k].key, |chains'|) == a {
      if a == b {
        assert c[k] == chains[b][if k < i then k else k + 1];
      }
    }
    forall a, j, k | 0 <= a < |chains'| && 0 <= j < k < |chains'[a]| ensures chains'[a][j].key != chains'[a][k].key {
      if a == b {
        assert c[j] == chains[b][if j < i then j else j + 1] && c[k] == chains[b][if k < i then k else k + 1];
      }
    }
  }
}
