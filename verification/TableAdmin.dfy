/** Installing tables and reading their counters: translate_table, replace_table,
    do_replace, get_counters, do_add_counters, and a packet's traversal on one CPU. */
module TableAdmin {
  import opened CameFrom
  import opened IpMatch
  import opened MarkChains
  import opened ModuleUse
  import opened Reference
  import opened RuleEngine
  import opened RuleGraph
  import opened Wrappers

  const EAGAIN := 11
  const EFAULT := 14
  const ELOOP := 40

  ghost predicate Apart(a: Entries, b: Entries) {
    {a.comefrom, a.pcnt, a.bcnt} !! {b.comefrom, b.pcnt, b.bcnt}
  }

  // ----- Totals over all CPUs -----

  /** The sum of row[p] over all rows. */
  function ColumnSum(rows: seq<seq<nat>>, p: nat): nat
    requires forall i :: 0 <= i < |rows| ==> p < |rows[i]|
  {
    if rows == [] then 0 else ColumnSum(rows[..|rows| - 1], p) + rows[|rows| - 1][p]
  }

  lemma {:induction false} ColumnSumUpdate(rows: seq<seq<nat>>, cpu: nat, row: seq<nat>, p: nat)
    requires cpu < |rows| && p < |row|
    requires forall i :: 0 <= i < |rows| ==> p < |rows[i]|
    ensures ColumnSum(rows[cpu := row], p) == ColumnSum(rows, p) - rows[cpu][p] + row[p]
  {
    var last := |rows| - 1;
    var rows' := rows[cpu := row];
    if cpu == last {
      assert rows'[..last] == rows[..last];
    } else {
      assert rows'[..last] == rows[..last][cpu := row];
      ColumnSumUpdate(rows[..last], cpu, row, p);
    }
  }

  lemma {:induction false} ColumnSumZero(rows: seq<seq<nat>>, p: nat)
    requires forall i :: 0 <= i < |rows| ==> p < |rows[i]| && rows[i][p] == 0
    ensures ColumnSum(rows, p) == 0
  {
    if rows != [] {
      ColumnSumZero(rows[..|rows| - 1], p);
    }
  }

  // ----- struct ipt_table_info -----

  class TableInfo {
    const rules: seq<Rule>
    const copies: seq<Entries>
    const hookEntry: seq<nat>
    const underflow: seq<nat>
    var initialEntries: nat

    ghost predicate Shape() {
      && |copies| > 0
      && |hookEntry| == |underflow| == NF_IP_NUMHOOKS
      && (forall i :: 0 <= i < |copies| ==> copies[i].Valid() && copies[i].rules == rules)
      && forall i, j :: 0 <= i < j < |copies| ==> Apart(copies[i], copies[j])
    }

    ghost function Words(): set<array<nat>> {
      (set e | e in copies :: e.comefrom) + (set e | e in copies :: e.pcnt) + (set e | e in copies :: e.bcnt)
    }

    ghost function PacketRows(): (rows: seq<seq<nat>>)
      reads Words()
    {
      seq(|copies|, i requires 0 <= i < |copies| reads Words() => copies[i].pcnt[..])
    }

    ghost function ByteRows(): (rows: seq<seq<nat>>)
      reads Words()
    {
      seq(|copies|, i requires 0 <= i < |copies| reads Words() => copies[i].bcnt[..])
    }

    lemma InWords(i: nat)
      requires i < |copies|
      ensures copies[i].comefrom in Words() && copies[i].pcnt in Words() && copies[i].bcnt in Words()
    {
    }

    /** vmalloc: room for one copy per CPU. */
    constructor (rules: seq<Rule>, hookEntry: seq<nat>, underflow: seq<nat>, cpus: nat)
      requires cpus > 0 && |hookEntry| == |underflow| == NF_IP_NUMHOOKS
      ensures Shape() && this.rules == rules && this.hookEntry == hookEntry && this.underflow == underflow
      ensures fresh(Words())
    {
      var cs: seq<Entries> := [];
      while |cs| < cpus
        invariant |cs| <= cpus
        invariant forall i :: 0 <= i < |cs| ==> fresh(cs[i]) && cs[i].Valid() && cs[i].rules == rules
        invariant forall i :: 0 <= i < |cs| ==> fresh(cs[i].comefrom) && fresh(cs[i].pcnt) && fresh(cs[i].bcnt)
        invariant forall i, j :: 0 <= i < j < |cs| ==> Apart(cs[i], cs[j])
      {
        var e := new Entries(rules);
        cs := cs + [e];
      }
      this.rules, copies, this.hookEntry, this.underflow := rules, cs, hookEntry, underflow;
      initialEntries := 0;
    }
  }

  /** A hook is usable when its entry is a rule from which no cycle can be reached. */
  ghost predicate HooksFit(rules: seq<Rule>, hookEntry: seq<nat>, underflow: seq<nat>, validHooks: nat)
    requires |hookEntry| == |underflow| == NF_IP_NUMHOOKS
  {
    forall h :: 0 <= h < NF_IP_NUMHOOKS && Bit(validHooks, h) ==>
      hookEntry[h] < |rules| && underflow[h] < |rules| && !ReachesCycle(rules, hookEntry[h])
  }

  /** From a valid hook in the table control never leaves it; the kernel finds a jump out of
      the table only after it has followed it. */
  ghost predicate HooksFollowable(rules: seq<Rule>, hookEntry: seq<nat>, validHooks: nat)
    requires |hookEntry| == NF_IP_NUMHOOKS
  {
    forall h :: 0 <= h < NF_IP_NUMHOOKS && Bit(validHooks, h) && hookEntry[h] < |rules| ==>
      Followable(rules, hookEntry[h])
  }

  ghost predicate HooksAccepted(info: TableInfo, validHooks: nat)
    requires |info.hookEntry| == |info.underflow| == NF_IP_NUMHOOKS
  {
    && HooksFit(info.rules, info.hookEntry, info.underflow, validHooks)
    && HooksFollowable(info.rules, info.hookEntry, validHooks)
  }

  /** What translate_table demands of a table */
  ghost predicate Translatable(reg: Registry, rules: seq<Rule>, hookEntry: seq<nat>, underflow: seq<nat>,
                               validHooks: nat, number: nat)
    requires |hookEntry| == |underflow| == NF_IP_NUMHOOKS
  {
    && number == |rules| && HooksFit(rules, hookEntry, underflow, validHooks)
    && forall k :: 0 <= k < |rules| ==> reg.Acceptable(rules[k], |rules|)
  }

  /** All counters of all copies are zero. */
  ghost predicate Fresh(info: TableInfo)
    requires info.Shape()
    reads info.Words()
  {
    forall i, p :: 0 <= i < |info.copies| && 0 <= p < |info.rules| ==>
      (info.InWords(i); info.copies[i].pcnt[p] == 0 && info.copies[i].bcnt[p] == 0)
  }

  /** "Clear counters and comefrom" */
  method ClearEntries(e: Entries)
    requires e.Valid()
    modifies e.comefrom, e.pcnt, e.bcnt
    ensures e.Cleared()
    ensures forall p :: 0 <= p < e.bcnt.Length ==> e.bcnt[p] == 0
  {
    var p := 0;
    while p < |e.rules|
      invariant p <= |e.rules|
      invariant forall q :: 0 <= q < p ==> e.comefrom[q] == e.pcnt[q] == e.bcnt[q] == 0
    {
      e.comefrom[p], e.pcnt[p], e.bcnt[p] := 0, 0, 0;
      p := p + 1;
    }
  }

  /** memcpy of one copy over another. */
  method CopyEntries(src: Entries, dst: Entries)
    requires src.Valid() && dst.Valid() && src.rules == dst.rules && Apart(src, dst)
    modifies dst.comefrom, dst.pcnt, dst.bcnt
    ensures dst.comefrom[..] == src.comefrom[..] && dst.pcnt[..] == src.pcnt[..] && dst.bcnt[..] == src.bcnt[..]
  {
    var p := 0;
    while p < |src.rules|
      invariant p <= |src.rules|
      invariant forall q :: 0 <= q < p ==>
        dst.comefrom[q] == src.comefrom[q] && dst.pcnt[q] == src.pcnt[q] && dst.bcnt[q] == src.bcnt[q]
      invariant src.comefrom[..] == old(src.comefrom[..]) && src.pcnt[..] == old(src.pcnt[..]) && src.bcnt[..] == old(src.bcnt[..])
    {
      dst.comefrom[p], dst.pcnt[p], dst.bcnt[p] := src.comefrom[p], src.pcnt[p], src.bcnt[p];
      p := p + 1;
    }
  }

  /** "And one copy for every other CPU" */
  method CopyToOtherCpus(info: TableInfo)
    requires info.Shape()
    requires (forall p :: 0 <= p < |info.rules| ==> info.copies[0].pcnt[p] == info.copies[0].bcnt[p] == 0)
    modifies info.Words()
    ensures Fresh(info)
  {
    hide TableInfo.Words;
    var i := 1;
    while i < |info.copies|
      invariant 1 <= i <= |info.copies|
      invariant forall k, p :: 0 <= k < i && 0 <= p < |info.rules| ==>
        info.copies[k].pcnt[p] == info.copies[k].bcnt[p] == 0
    {
      info.InWords(i);
      ghost var k0 := i;
      assert forall k :: 0 <= k < i ==> Apart(info.copies[k], info.copies[k0]);
      CopyEntries(info.copies[0], info.copies[i]);
      assert forall p :: 0 <= p < |info.rules| ==>
        info.copies[i].pcnt[p] == info.copies[i].pcnt[..][p] && info.copies[i].bcnt[p] == info.copies[i].bcnt[..][p];
      i := i + 1;
    }
  }

  /** translate_table: on success the hooks are accepted, the modules the rules name hold a
      reference each, and every copy starts counting at zero; on failure no reference is held. */
  method TranslateTable(reg: Registry, info: TableInfo, validHooks: nat, number: nat, interrupted: (nat, nat) -> bool)
    returns (ret: nat)
    requires info.Shape() && HooksFollowable(info.rules, info.hookEntry, validHooks)
    modifies reg`useCount, info.Words()
    ensures reg.useCount == old(reg.useCount) +
      if ret == SUCCESS then TableRefs(reg.matchMods, reg.targetMods, info.rules) else multiset{}
    ensures ret == SUCCESS ==>
      && HooksAccepted(info, validHooks) && number == |info.rules| && Fresh(info)
      && forall k :: 0 <= k < |info.rules| ==> reg.Bound(info.rules[k])
    ensures ret == SUCCESS <==>
      Translatable(reg, info.rules, info.hookEntry, info.underflow, validHooks, number)
      && !AnyInterrupt(info.rules, interrupted)
    ensures ret in {SUCCESS, ENOENT, EINTR, EINVAL, ELOOP} && (ret == EINTR ==> AnyInterrupt(info.rules, interrupted))
    ensures ret == ELOOP ==>
      exists h :: 0 <= h < NF_IP_NUMHOOKS && Bit(validHooks, h) && ReachesCycle(info.rules, info.hookEntry[h])
  {
    hide ReachesCycle, Followable, TableRefs, Registry.Acceptable, Registry.Bound, AnyInterrupt;
    var first := info.copies[0];
    info.InWords(0);
    ClearEntries(first);
    if |info.rules| != number {
      return EINVAL;
    }
    for h := 0 to NF_IP_NUMHOOKS
      invariant forall g :: 0 <= g < h && Bit(validHooks, g) ==>
        info.hookEntry[g] < |info.rules| && info.underflow[g] < |info.rules|
    {
      if Bit(validHooks, h) && (info.hookEntry[h] >= |info.rules| || info.underflow[h] >= |info.rules|) {
        return EINVAL;
      }
    }
    var ok := first.MarkSourceChains(info.hookEntry, validHooks);
    if !ok {
      return ELOOP;
    }
    ret := reg.CheckEntries(info.rules, interrupted);
    if ret != SUCCESS {
      return;
    }
    CopyToOtherCpus(info);
  }

  // ----- struct ipt_table -----

  ghost function HitPackets(hits: seq<Hit>, n: nat): (s: seq<nat>)
    ensures |s| == n
  {
    seq(n, p requires 0 <= p < n => PacketsOf(hits, p))
  }

  ghost function HitBytes(hits: seq<Hit>, n: nat): (s: seq<nat>)
    ensures |s| == n
  {
    seq(n, p requires 0 <= p < n => BytesOf(hits, p))
  }

  lemma HitsAt(hits: seq<Hit>, n: nat)
    ensures forall p :: 0 <= p < n ==> HitPackets(hits, n)[p] == PacketsOf(hits, p) && HitBytes(hits, n)[p] == BytesOf(hits, p)
  {
  }

  ghost function AddTotals(totals: seq<nat>, delta: seq<nat>): seq<nat>
    requires |delta| == |totals|
  {
    seq(|totals|, p requires 0 <= p < |totals| => (totals[p] + delta[p]) % COUNTER_MODULUS)
  }

  lemma AddedOn(totals: seq<nat>, delta: seq<nat>)
    requires |delta| == |totals|
    ensures |AddTotals(totals, delta)| == |totals|
    ensures forall p :: 0 <= p < |totals| ==>
      AddTotals(totals, delta)[p] == (totals[p] + delta[p]) % 0x1_0000_0000_0000_0000
  {
  }

  /** Column sums modulo the counter width. */
  ghost predicate TotalsAre(rows: seq<seq<nat>>, totals: seq<nat>) {
    && (forall i :: 0 <= i < |rows| ==> |rows[i]| == |totals|)
    && forall p :: 0 <= p < |totals| ==> ColumnSum(rows, p) % COUNTER_MODULUS == totals[p]
  }

  /** The counters of all copies are in range and add up to the totals. */
  ghost predicate Counting(info: TableInfo, packets: seq<nat>, bytes: seq<nat>)
    reads info.Words()
  {
    && (forall i :: 0 <= i < |info.copies| ==> info.copies[i].pcnt in info.Words() && info.copies[i].bcnt in info.Words())
    && (forall i :: 0 <= i < |info.copies| ==> CountersInRange(info.copies[i]))
    && TotalsAre(info.PacketRows(), packets) && |packets| == |info.rules|
    && TotalsAre(info.ByteRows(), bytes) && |bytes| == |info.rules|
  }

  function OwnReference(me: Option<string>, number: nat, initial: nat): multiset<string> {
    if number > initial then Owner(me) else multiset{}
  }

  class Table {
    const me: Option<string>
    const validHooks: nat
    var info: TableInfo
    /** What this table has counted since it was installed, on all CPUs together, plus
        what do_add_counters added, per rule. */
    ghost var packets: seq<nat>
    ghost var bytes: seq<nat>

    ghost predicate Valid()
      reads this, info.Words()
    {
      && info.Shape()
      && HooksAccepted(info, validHooks)
      && Counting(info, packets, bytes)
    }

    /** The table module's own reference: rules were added to the initial ones. */
    ghost function SelfRef(): multiset<string>
      reads this, info
    {
      OwnReference(me, |info.rules|, info.initialEntries)
    }

    /** Every use count is what `others` hold, plus one per reference from the installed
        table, plus the table module's own. */
    ghost predicate Accounted(reg: Registry, others: multiset<string>)
      reads this, info, reg
    {
      && (forall k :: 0 <= k < |info.rules| ==> reg.Bound(info.rules[k]))
      && reg.useCount == others + TableRefs(reg.matchMods, reg.targetMods, info.rules) + SelfRef()
    }

    /** The last steps of ipt_register_table. */
    constructor (me: Option<string>, validHooks: nat, info: TableInfo)
      requires info.Shape() && HooksAccepted(info, validHooks) && Fresh(info)
      modifies info`initialEntries
      ensures Valid() && this.info == info && this.me == me && this.validHooks == validHooks
      ensures packets == bytes == seq(|info.rules|, _ => 0)
      ensures SelfRef() == multiset{}
    {
      this.me, this.validHooks, this.info := me, validHooks, info;
      packets, bytes := seq(|info.rules|, _ => 0), seq(|info.rules|, _ => 0);
      new;
      info.initialEntries := |info.rules|;
      FreshTotals(info);
    }

    /** ipt_do_table on one CPU: what the evaluator says, and this packet's hits are added to
        the totals. The policy condition is the one the kernel leaves unchecked. */
    method Traverse(cpu: nat, hook: nat, indev: Iface, outdev: Iface, skb: Packet)
      returns (verdict: int, pkt: Packet, ghost hits: seq<Hit>)
      requires Valid() && cpu < |info.copies|
      requires hook < NF_IP_NUMHOOKS && Bit(validHooks, hook) && Policy(info.rules, info.underflow[hook])
      modifies this`packets, this`bytes, info.Words()
      ensures Valid() && info == old(info)
      ensures RunChain(info.rules, info.hookEntry[hook], info.underflow[hook], World(skb, []),
                       Context(hook, indev, outdev, skb.fragOffset))
           == Final(verdict, World(pkt, hits))
      ensures packets == AddTotals(old(packets), HitPackets(hits, |info.rules|))
      ensures bytes == AddTotals(old(bytes), HitBytes(hits, |info.rules|))
      ensures |packets| == |bytes| == |info.rules| == |old(packets)| == |old(bytes)|
      ensures forall p :: 0 <= p < |info.rules| ==>
        && packets[p] == (old(packets)[p] + PacketsOf(hits, p)) % 0x1_0000_0000_0000_0000
        && bytes[p] == (old(bytes)[p] + BytesOf(hits, p)) % 0x1_0000_0000_0000_0000
    {
      hide *;
      ValidParts();
      HookAccepted(info, validHooks, hook);
      verdict, pkt, hits := TraverseCopy(info, cpu, hook, indev, outdev, skb, packets, bytes);
      packets := AddTotals(packets, HitPackets(hits, |info.rules|));
      bytes := AddTotals(bytes, HitBytes(hits, |info.rules|));
      PartsValid();
      AddedOn(old(packets), HitPackets(hits, |info.rules|));
      AddedOn(old(bytes), HitBytes(hits, |info.rules|));
      HitsAt(hits, |info.rules|);
    }

    lemma ValidParts()
      requires Valid()
      ensures info.Shape() && HooksAccepted(info, validHooks)
      ensures |info.hookEntry| == |info.underflow| == NF_IP_NUMHOOKS
      ensures Counting(info, packets, bytes)
    {
    }

    lemma SelfRefParts()
      ensures SelfRef() == OwnReference(me, |info.rules|, info.initialEntries)
    {
    }

    lemma AccountedParts(reg: Registry, others: multiset<string>)
      requires Accounted(reg, others)
      ensures forall k :: 0 <= k < |info.rules| ==> reg.Bound(info.rules[k])
      ensures reg.useCount == others + TableRefs(reg.matchMods, reg.targetMods, info.rules) + SelfRef()
    {
    }

    lemma PartsAccounted(reg: Registry, others: multiset<string>)
      requires forall k :: 0 <= k < |info.rules| ==> reg.Bound(info.rules[k])
      requires reg.useCount == others + TableRefs(reg.matchMods, reg.targetMods, info.rules) + SelfRef()
      ensures Accounted(reg, others)
    {
    }

    lemma PartsValid()
      requires info.Shape() && |info.hookEntry| == |info.underflow| == NF_IP_NUMHOOKS
      requires HooksAccepted(info, validHooks) && Counting(info, packets, bytes)
      ensures Valid()
    {
    }
  }

  /** The balance spelled out for one module: what others hold, one reference for each match
      and each target of the installed rules that it owns, and one more for the table's own
      module while there are more rules than initially. */
  lemma AccountedMeans(t: Table, reg: Registry, others: multiset<string>, x: string)
    requires t.Accounted(reg, others)
    ensures reg.useCount[x] == others[x]
      + |OwnedMatches(reg.matchMods, t.info.rules, x)| + |OwnedTargets(reg.targetMods, t.info.rules, x)|
      + if t.me == Some(x) && |t.info.rules| > t.info.initialEntries then 1 else 0
  {
    hide TableRefs, OwnedMatches, OwnedTargets;
    TableRefsCount(reg.matchMods, reg.targetMods, t.info.rules, x);
  }

  lemma HookAccepted(info: TableInfo, validHooks: nat, hook: nat)
    requires |info.hookEntry| == |info.underflow| == NF_IP_NUMHOOKS
    requires HooksAccepted(info, validHooks) && hook < NF_IP_NUMHOOKS && Bit(validHooks, hook)
    ensures Sound(info.rules, info.hookEntry[hook])
  {
  }

  /** The copy of CPU `cpu` is traversed; its hits join the totals. */
  method TraverseCopy(info: TableInfo, cpu: nat, hook: nat, indev: Iface, outdev: Iface, skb: Packet,
                      ghost packets: seq<nat>, ghost bytes: seq<nat>)
    returns (verdict: int, pkt: Packet, ghost hits: seq<Hit>)
    requires info.Shape() && Counting(info, packets, bytes) && cpu < |info.copies|
    requires hook < NF_IP_NUMHOOKS && |info.hookEntry| == |info.underflow| == NF_IP_NUMHOOKS
    requires Sound(info.rules, info.hookEntry[hook])
    requires Policy(info.rules, info.underflow[hook])
    modifies info.Words()
    ensures RunChain(info.rules, info.hookEntry[hook], info.underflow[hook], World(skb, []),
                     Context(hook, indev, outdev, skb.fragOffset))
         == Final(verdict, World(pkt, hits))
    ensures |packets| == |bytes| == |info.rules|
    ensures Counting(info, AddTotals(packets, HitPackets(hits, |info.rules|)), AddTotals(bytes, HitBytes(hits, |info.rules|)))
  {
    hide Sound, Policy, RunChain, TotalsAre, Tallied, TableInfo.PacketRows, TableInfo.ByteRows,
         AddTotals, HitPackets, HitBytes;
    var e := info.copies[cpu];
    info.InWords(cpu);
    ghost var packetRows, byteRows := info.PacketRows(), info.ByteRows();
    RowsAre(info);
    verdict, pkt, hits := DoTable(e, hook, indev, outdev, skb, info.hookEntry[hook], info.underflow[hook]);
    forall i | 0 <= i < |info.copies| && i != cpu
      ensures info.copies[i].pcnt[..] == packetRows[i] && info.copies[i].bcnt[..] == byteRows[i]
      ensures CountersInRange(info.copies[i])
    {
      CopiesApart(info, i, cpu);
    }
    RowsReplaced(info, packetRows, byteRows, cpu);
    TraversalTallied(e, packetRows, byteRows, cpu, packets, bytes, hits);
  }

  /** For framing: the words of a table exist already, so new objects are none of them. */
  lemma WordsExist(info: TableInfo)
    ensures forall w :: w in info.Words() ==> allocated(w)
  {
    forall w | w in info.Words() ensures allocated(w) {
      if w in (set e | e in info.copies :: e.comefrom) {
      } else if w in (set e | e in info.copies :: e.pcnt) {
      }
    }
  }

  lemma CopiesApart(info: TableInfo, i: nat, j: nat)
    requires info.Shape() && i < |info.copies| && j < |info.copies| && i != j
    ensures Apart(info.copies[i], info.copies[j])
  {
    if j < i {
      assert Apart(info.copies[j], info.copies[i]);
    }
  }

  lemma RowsAre(info: TableInfo)
    ensures |info.PacketRows()| == |info.ByteRows()| == |info.copies|
    ensures forall i :: 0 <= i < |info.copies| ==>
      info.PacketRows()[i] == info.copies[i].pcnt[..] && info.ByteRows()[i] == info.copies[i].bcnt[..]
  {
  }

  /** A traversal on one CPU adds its hits to the totals. */
  lemma TraversalTallied(e: Entries, packetRows: seq<seq<nat>>, byteRows: seq<seq<nat>>, cpu: nat,
                         packets: seq<nat>, bytes: seq<nat>, hits: seq<Hit>)
    requires e.Valid() && cpu < |packetRows| == |byteRows| && |packets| == |bytes| == |e.rules|
    requires Tallied(e.pcnt[..], e.bcnt[..], packetRows[cpu], byteRows[cpu], hits)
    requires TotalsAre(packetRows, packets) && TotalsAre(byteRows, bytes)
    ensures TotalsAre(packetRows[cpu := e.pcnt[..]], AddTotals(packets, HitPackets(hits, |e.rules|)))
    ensures TotalsAre(byteRows[cpu := e.bcnt[..]], AddTotals(bytes, HitBytes(hits, |e.rules|)))
    ensures CountersInRange(e)
    ensures |AddTotals(packets, HitPackets(hits, |e.rules|))| == |AddTotals(bytes, HitBytes(hits, |e.rules|))| == |e.rules|
  {
    Added(packetRows, cpu, e.pcnt[..], packets, HitPackets(hits, |e.rules|));
    Added(byteRows, cpu, e.bcnt[..], bytes, HitBytes(hits, |e.rules|));
    forall p | 0 <= p < |e.rules|
      ensures e.pcnt[p] < COUNTER_MODULUS && e.bcnt[p] < COUNTER_MODULUS
    {
      assert e.pcnt[..][p] == e.pcnt[p] && e.bcnt[..][p] == e.bcnt[p];
    }
  }

  /** After one copy has changed, the rows are the old ones with that row replaced. */
  lemma RowsReplaced(info: TableInfo, packetRows: seq<seq<nat>>, byteRows: seq<seq<nat>>, cpu: nat)
    requires cpu < |info.copies| == |packetRows| == |byteRows|
    requires forall i :: 0 <= i < |info.copies| && i != cpu ==>
      info.copies[i].pcnt[..] == packetRows[i] && info.copies[i].bcnt[..] == byteRows[i]
    ensures info.PacketRows() == packetRows[cpu := info.copies[cpu].pcnt[..]]
    ensures info.ByteRows() == byteRows[cpu := info.copies[cpu].bcnt[..]]
  {
  }

  lemma FreshTotals(info: TableInfo)
    requires info.Shape() && Fresh(info)
    ensures TotalsAre(info.PacketRows(), seq(|info.rules|, _ => 0))
    ensures TotalsAre(info.ByteRows(), seq(|info.rules|, _ => 0))
    ensures forall i :: 0 <= i < |info.copies| ==> CountersInRange(info.copies[i])
  {
    var packetRows, byteRows := info.PacketRows(), info.ByteRows();
    forall p | 0 <= p < |info.rules|
      ensures ColumnSum(packetRows, p) == 0 && ColumnSum(byteRows, p) == 0
    {
      forall i | 0 <= i < |info.copies| {
        info.InWords(i);
      }
      ColumnSumZero(packetRows, p);
      ColumnSumZero(byteRows, p);
    }
  }

  ghost predicate Increased(now: seq<nat>, before: seq<nat>, delta: seq<nat>) {
    && |now| == |before| == |delta|
    && forall p :: 0 <= p < |now| ==> now[p] == (before[p] + delta[p]) % COUNTER_MODULUS
  }

  /** Adding delta to one row adds it to the totals. */
  lemma Added(rows: seq<seq<nat>>, cpu: nat, row: seq<nat>, totals: seq<nat>, delta: seq<nat>)
    requires cpu < |rows| && TotalsAre(rows, totals) && Increased(row, rows[cpu], delta)
    ensures |totals| == |delta|
    ensures TotalsAre(rows[cpu := row], AddTotals(totals, delta))
  {
    var totals' := AddTotals(totals, delta);
    forall p | 0 <= p < |totals|
      ensures ColumnSum(rows[cpu := row], p) % COUNTER_MODULUS == totals'[p]
    {
      ColumnSumUpdate(rows, cpu, row, p);
      ModAdd(ColumnSum(rows, p), rows[cpu][p], delta[p]);
    }
  }

  /** Replacing a summand x by (x + d) mod m changes the sum by d, modulo m. */
  lemma ModAdd(sum: int, x: nat, d: nat)
    ensures (sum - x + (x + d) % COUNTER_MODULUS) % COUNTER_MODULUS == (sum % COUNTER_MODULUS + d) % COUNTER_MODULUS
  {
  }

  // ----- Reading and adding counters -----

  /** add_entry_to_counter over one copy */
  method AddCopy(e: Entries, packets: array<nat>, bytes: array<nat>)
    requires e.Valid() && packets.Length == bytes.Length == |e.rules| && packets != bytes
    requires packets !in {e.comefrom, e.pcnt, e.bcnt} && bytes !in {e.comefrom, e.pcnt, e.bcnt}
    modifies packets, bytes
    ensures forall p :: 0 <= p < |e.rules| ==>
      && packets[p] == (old(packets[p]) + e.pcnt[p]) % COUNTER_MODULUS
      && bytes[p] == (old(bytes[p]) + e.bcnt[p]) % COUNTER_MODULUS
  {
    var i := 0;
    while i < |e.rules|
      invariant i <= |e.rules|
      invariant forall p :: 0 <= p < i ==>
        && packets[p] == (old(packets[p]) + e.pcnt[p]) % COUNTER_MODULUS
        && bytes[p] == (old(bytes[p]) + e.bcnt[p]) % COUNTER_MODULUS
      invariant forall p :: i <= p < |e.rules| ==> packets[p] == old(packets[p]) && bytes[p] == old(bytes[p])
    {
      bytes[i] := (bytes[i] + e.bcnt[i]) % COUNTER_MODULUS;
      packets[i] := (packets[i] + e.pcnt[i]) % COUNTER_MODULUS;
      i := i + 1;
    }
  }

  /** What adding up the first n rows has produced so far. */
  ghost predicate PartialSums(rows: seq<seq<nat>>, n: nat, sums: seq<nat>)
    requires n <= |rows|
  {
    && (forall i :: 0 <= i < |rows| ==> |rows[i]| == |sums|)
    && forall p :: 0 <= p < |sums| ==> sums[p] == ColumnSum(rows[..n], p) % COUNTER_MODULUS
  }

  lemma PartialSumsStep(rows: seq<seq<nat>>, n: nat, sums: seq<nat>, sums': seq<nat>)
    requires n < |rows| && PartialSums(rows, n, sums) && |sums'| == |sums|
    requires forall p :: 0 <= p < |sums| ==> sums'[p] == (sums[p] + rows[n][p]) % COUNTER_MODULUS
    ensures PartialSums(rows, n + 1, sums')
  {
    assert rows[..n + 1][..n] == rows[..n];
  }

  /** get_counters into two zeroed arrays: the per-rule totals over all CPUs. */
  method GetCounters(info: TableInfo, packets: array<nat>, bytes: array<nat>)
    requires info.Shape() && packets.Length == bytes.Length == |info.rules| && packets != bytes
    requires packets !in info.Words() && bytes !in info.Words()
    requires forall p :: 0 <= p < |info.rules| ==> packets[p] == bytes[p] == 0
    modifies packets, bytes
    ensures TotalsAre(old(info.PacketRows()), packets[..]) && TotalsAre(old(info.ByteRows()), bytes[..])
  {
    hide ColumnSum, PartialSums, TotalsAre, TableInfo.PacketRows, TableInfo.ByteRows, TableInfo.Words;
    ghost var packetRows, byteRows := info.PacketRows(), info.ByteRows();
    RowsAre(info);
    NoSums(packetRows, packets[..]);
    NoSums(byteRows, bytes[..]);
    var cpu := 0;
    while cpu < |info.copies|
      invariant cpu <= |info.copies|
      invariant info.PacketRows() == packetRows && info.ByteRows() == byteRows
      invariant PartialSums(packetRows, cpu, packets[..]) && PartialSums(byteRows, cpu, bytes[..])
    {
      AddCpu(info, cpu, packets, bytes);
      cpu := cpu + 1;
    }
    Summed(packetRows, packets[..]);
    Summed(byteRows, bytes[..]);
  }

  /** The same for one CPU */
  method AddCpu(info: TableInfo, cpu: nat, packets: array<nat>, bytes: array<nat>)
    requires info.Shape() && packets.Length == bytes.Length == |info.rules| && packets != bytes
    requires packets !in info.Words() && bytes !in info.Words() && cpu < |info.copies|
    requires |info.PacketRows()| == |info.ByteRows()| == |info.copies|
    requires PartialSums(info.PacketRows(), cpu, packets[..]) && PartialSums(info.ByteRows(), cpu, bytes[..])
    modifies packets, bytes
    ensures info.PacketRows() == old(info.PacketRows()) && info.ByteRows() == old(info.ByteRows())
    ensures PartialSums(info.PacketRows(), cpu + 1, packets[..]) && PartialSums(info.ByteRows(), cpu + 1, bytes[..])
  {
    hide ColumnSum, PartialSums, TableInfo.PacketRows, TableInfo.ByteRows, TableInfo.Words;
    ghost var packetRows, byteRows := info.PacketRows(), info.ByteRows();
    info.InWords(cpu);
    RowsAre(info);
    WordsExist(info);
    ghost var packets0, bytes0 := packets[..], bytes[..];
    AddCopy(info.copies[cpu], packets, bytes);
    PartialSumsStep(packetRows, cpu, packets0, packets[..]);
    PartialSumsStep(byteRows, cpu, bytes0, bytes[..]);
  }

  lemma Summed(rows: seq<seq<nat>>, sums: seq<nat>)
    requires PartialSums(rows, |rows|, sums)
    ensures TotalsAre(rows, sums)
  {
    assert rows[..|rows|] == rows;
  }

  lemma NoSums(rows: seq<seq<nat>>, zeros: seq<nat>)
    requires forall i :: 0 <= i < |rows| ==> |rows[i]| == |zeros|
    requires forall p :: 0 <= p < |zeros| ==> zeros[p] == 0
    ensures PartialSums(rows, 0, zeros)
  {
  }

  lemma RowsUnchanged(info: TableInfo, packetRows: seq<seq<nat>>, byteRows: seq<seq<nat>>)
    requires |packetRows| == |byteRows| == |info.copies|
    requires forall i :: 0 <= i < |info.copies| ==>
      info.copies[i].pcnt[..] == packetRows[i] && info.copies[i].bcnt[..] == byteRows[i]
    ensures info.PacketRows() == packetRows && info.ByteRows() == byteRows
  {
  }

  /** The loop of do_add_counters: the first CPU's copy takes the additions. */
  method AddToEntries(e: Entries, addPackets: seq<nat>, addBytes: seq<nat>)
    requires e.Valid() && |addPackets| == |addBytes| == |e.rules|
    modifies e.pcnt, e.bcnt
    ensures Increased(e.pcnt[..], old(e.pcnt[..]), addPackets)
    ensures Increased(e.bcnt[..], old(e.bcnt[..]), addBytes)
  {
    var i := 0;
    while i < |e.rules|
      invariant i <= |e.rules|
      invariant forall p :: 0 <= p < i ==>
        && e.pcnt[p] == (old(e.pcnt[p]) + addPackets[p]) % COUNTER_MODULUS
        && e.bcnt[p] == (old(e.bcnt[p]) + addBytes[p]) % COUNTER_MODULUS
      invariant forall p :: i <= p < |e.rules| ==> e.pcnt[p] == old(e.pcnt[p]) && e.bcnt[p] == old(e.bcnt[p])
    {
      e.bcnt[i] := (e.bcnt[i] + addBytes[i]) % COUNTER_MODULUS;
      e.pcnt[i] := (e.pcnt[i] + addPackets[i]) % COUNTER_MODULUS;
      i := i + 1;
    }
  }

  /** The same on a whole table. */
  method AddToFirstCopy(info: TableInfo, addPackets: seq<nat>, addBytes: seq<nat>, ghost packets: seq<nat>, ghost bytes: seq<nat>)
    requires info.Shape() && Counting(info, packets, bytes)
    requires |addPackets| == |addBytes| == |info.rules|
    modifies info.Words()
    ensures |packets| == |bytes| == |info.rules|
    ensures Counting(info, AddTotals(packets, addPackets), AddTotals(bytes, addBytes))
  {
    hide TotalsAre, TableInfo.PacketRows, TableInfo.ByteRows, AddTotals, Increased;
    var e := info.copies[0];
    info.InWords(0);
    ghost var packetRows, byteRows := info.PacketRows(), info.ByteRows();
    RowsAre(info);
    AddToEntries(e, addPackets, addBytes);
    forall i | 0 < i < |info.copies|
      ensures info.copies[i].pcnt[..] == packetRows[i] && info.copies[i].bcnt[..] == byteRows[i]
      ensures CountersInRange(info.copies[i])
    {
      CopiesApart(info, 0, i);
    }
    RowsReplaced(info, packetRows, byteRows, 0);
    AdditionTallied(e, packetRows, byteRows, packets, bytes, addPackets, addBytes);
  }

  lemma AdditionTallied(e: Entries, packetRows: seq<seq<nat>>, byteRows: seq<seq<nat>>, packets: seq<nat>, bytes: seq<nat>,
                        addPackets: seq<nat>, addBytes: seq<nat>)
    requires e.Valid() && 0 < |packetRows| == |byteRows| && |packets| == |bytes| == |e.rules| == |addPackets| == |addBytes|
    requires |packetRows[0]| == |byteRows[0]| == |e.rules|
    requires Increased(e.pcnt[..], packetRows[0], addPackets) && Increased(e.bcnt[..], byteRows[0], addBytes)
    requires TotalsAre(packetRows, packets) && TotalsAre(byteRows, bytes)
    ensures TotalsAre(packetRows[0 := e.pcnt[..]], AddTotals(packets, addPackets))
    ensures TotalsAre(byteRows[0 := e.bcnt[..]], AddTotals(bytes, addBytes))
    ensures CountersInRange(e)
    ensures |AddTotals(packets, addPackets)| == |AddTotals(bytes, addBytes)| == |e.rules|
  {
    Added(packetRows, 0, e.pcnt[..], packets, addPackets);
    Added(byteRows, 0, e.bcnt[..], bytes, addBytes);
    forall p | 0 <= p < |e.rules|
      ensures e.pcnt[p] < COUNTER_MODULUS && e.bcnt[p] < COUNTER_MODULUS
    {
      assert e.pcnt[..][p] == e.pcnt[p] && e.bcnt[..][p] == e.bcnt[p];
    }
  }

  /** do_add_counters: refused unless there is one addition per rule. */
  method DoAddCounters(t: Table, addPackets: seq<nat>, addBytes: seq<nat>, copyFails: bool) returns (ret: nat)
    requires t.Valid() && |addPackets| == |addBytes|
    modifies t`packets, t`bytes, t.info.Words()
    ensures t.Valid() && t.info == old(t.info)
    ensures ret == SUCCESS ==>
      && |addPackets| == |t.info.rules| == |old(t.packets)| == |old(t.bytes)|
      && t.packets == AddTotals(old(t.packets), addPackets) && t.bytes == AddTotals(old(t.bytes), addBytes)
    ensures ret != SUCCESS ==> t.packets == old(t.packets) && t.bytes == old(t.bytes)
    ensures ret == SUCCESS ==> forall p :: 0 <= p < |t.info.rules| ==>
      && t.packets[p] == (old(t.packets)[p] + addPackets[p]) % 0x1_0000_0000_0000_0000
      && t.bytes[p] == (old(t.bytes)[p] + addBytes[p]) % 0x1_0000_0000_0000_0000
    ensures ret == if copyFails then 14 else if |addPackets| != |t.info.rules| then 22 else 0
  {
    hide TotalsAre, Counting, HooksAccepted, TableInfo.Shape, TableInfo.Words, Table.Valid, AddTotals;
    t.ValidParts();
    if copyFails {
      return EFAULT;
    }
    if |t.info.rules| != |addPackets| {
      return EINVAL;
    }
    AddToFirstCopy(t.info, addPackets, addBytes, t.packets, t.bytes);
    t.packets, t.bytes := AddTotals(t.packets, addPackets), AddTotals(t.bytes, addBytes);
    t.PartsValid();
    AddedOn(old(t.packets), addPackets);
    AddedOn(old(t.bytes), addBytes);
    ret := SUCCESS;
  }

  /** The part of do_replace after the old table has been taken out: module counts, the old
      counters, and the references of the old rules. */
  method Retire(reg: Registry, me: Option<string>, oldinfo: TableInfo, newNumber: nat,
                ghost others: multiset<string>, ghost newRefs: multiset<string>, ghost packets0: seq<nat>, ghost bytes0: seq<nat>)
    returns (packets: seq<nat>, bytes: seq<nat>)
    requires oldinfo.Shape() && Counting(oldinfo, packets0, bytes0)
    requires forall k :: 0 <= k < |oldinfo.rules| ==> reg.Bound(oldinfo.rules[k])
    requires reg.useCount == others + TableRefs(reg.matchMods, reg.targetMods, oldinfo.rules)
      + OwnReference(me, |oldinfo.rules|, oldinfo.initialEntries) + newRefs
    modifies reg`useCount
    ensures reg.useCount == others + newRefs + OwnReference(me, newNumber, oldinfo.initialEntries)
    ensures packets == packets0 && bytes == bytes0
  {
    hide *;
    ghost var oldRefs := TableRefs(reg.matchMods, reg.targetMods, oldinfo.rules);
    CountingParts(oldinfo, packets0, bytes0);
    ghost var packetRows, byteRows := oldinfo.PacketRows(), oldinfo.ByteRows();
    packets, bytes := ReadCounters(oldinfo);
    SameTotals(packetRows, packets, packets0);
    SameTotals(byteRows, bytes, bytes0);
    ReferenceOrder(others, oldRefs, newRefs, OwnReference(me, |oldinfo.rules|, oldinfo.initialEntries));
    AdjustOwn(reg, me, |oldinfo.rules|, newNumber, oldinfo.initialEntries, others + newRefs + oldRefs);
    ReferenceOrder(others, oldRefs, newRefs, OwnReference(me, newNumber, oldinfo.initialEntries));
    assert oldinfo.rules[..|oldinfo.rules|] == oldinfo.rules;
    SumContains(others + newRefs + OwnReference(me, newNumber, oldinfo.initialEntries), oldRefs);
    reg.CleanupEntries(oldinfo.rules, |oldinfo.rules|);
    Cancel(reg.useCount, others + newRefs + OwnReference(me, newNumber, oldinfo.initialEntries), oldRefs);
  }

  /** get_counters into a zeroed array of its own. */
  method ReadCounters(info: TableInfo) returns (packets: seq<nat>, bytes: seq<nat>)
    requires info.Shape()
    ensures |packets| == |bytes| == |info.rules|
    ensures TotalsAre(old(info.PacketRows()), packets) && TotalsAre(old(info.ByteRows()), bytes)
  {
    hide TotalsAre, TableInfo.PacketRows, TableInfo.ByteRows;
    ghost var packetRows, byteRows := info.PacketRows(), info.ByteRows();
    RowsAre(info);
    var p, b := new nat[|info.rules|](_ => 0), new nat[|info.rules|](_ => 0);
    assert p !in info.Words() && b !in info.Words();
    RowsUnchanged(info, packetRows, byteRows);
    GetCounters(info, p, b);
    packets, bytes := p[..], b[..];
  }

  /** "Update module use count based on number of rules" */
  method AdjustOwn(reg: Registry, me: Option<string>, oldNumber: nat, newNumber: nat, initial: nat, ghost rest: multiset<string>)
    requires reg.useCount == rest + OwnReference(me, oldNumber, initial)
    modifies reg`useCount
    ensures reg.useCount == rest + OwnReference(me, newNumber, initial)
  {
    if oldNumber <= initial && newNumber > initial {
      reg.ModInc(me);
    } else if oldNumber > initial && newNumber <= initial {
      reg.ModDec(me);
      Cancel(reg.useCount, rest, Owner(me));
    }
  }

  lemma ReferenceOrder(others: multiset<string>, a: multiset<string>, b: multiset<string>, own: multiset<string>)
    ensures others + a + own + b == others + b + a + own == others + b + own + a
  {
  }

  lemma SumContains(a: multiset<string>, b: multiset<string>)
    ensures b <= a + b
  {
  }

  lemma CountingParts(info: TableInfo, packets: seq<nat>, bytes: seq<nat>)
    requires Counting(info, packets, bytes)
    ensures TotalsAre(info.PacketRows(), packets) && TotalsAre(info.ByteRows(), bytes)
    ensures |packets| == |bytes| == |info.rules|
  {
  }

  lemma SameTotals(rows: seq<seq<nat>>, a: seq<nat>, b: seq<nat>)
    requires TotalsAre(rows, a) && TotalsAre(rows, b) && |a| == |b|
    ensures a == b
  {
  }

  /** What can go wrong outside the table: copying from the caller, waiting for the mutex in a
      check of a rule, and waiting for the table's lock. */
  datatype Faults = Faults(copy: bool, check: (nat, nat) -> bool, lock: bool)

  /** do_replace. Whatever happens, afterwards every module's use count is what `others` hold
      plus its references from the installed table, and the table module is counted once more
      exactly while there are more rules than initially. On success the caller receives exactly
      what the old table had counted, and the new one starts at zero. */
  method DoReplace(reg: Registry, t: Table, rules: seq<Rule>, hookEntry: seq<nat>, underflow: seq<nat>,
                   cpus: nat, validHooks: nat, numEntries: nat, numCounters: nat, faults: Faults, ghost others: multiset<string>)
    returns (ret: nat, packets: seq<nat>, bytes: seq<nat>)
    requires cpus > 0 && |hookEntry| == |underflow| == NF_IP_NUMHOOKS && HooksFollowable(rules, hookEntry, validHooks)
    requires t.Valid() && t.Accounted(reg, others)
    modifies reg`useCount, t`info, t`packets, t`bytes
    ensures t.Valid() && t.Accounted(reg, others)
    ensures ret != SUCCESS ==>
      t.info == old(t.info) && t.packets == old(t.packets) && t.bytes == old(t.bytes)
    ensures ret == SUCCESS ==>
      && t.info.rules == rules && t.info.hookEntry == hookEntry && t.info.underflow == underflow
      && t.info.initialEntries == old(t.info.initialEntries)
      && numEntries == |rules| && validHooks == t.validHooks && numCounters == |old(t.info.rules)|
      && packets == old(t.packets) && bytes == old(t.bytes)
      && t.packets == t.bytes == Zeros(|rules|)
    ensures ret == SUCCESS ==>
      TotalsAre(old(t.info.PacketRows()), packets) && TotalsAre(old(t.info.ByteRows()), bytes)
    ensures ret == SUCCESS <==>
      && Translatable(reg, rules, hookEntry, underflow, validHooks, numEntries)
      && validHooks == t.validHooks && numCounters == |old(t.info.rules)|
      && !faults.copy && !AnyInterrupt(rules, faults.check) && !faults.lock
    ensures ret == EFAULT <==> faults.copy
    ensures ret == EINTR ==> AnyInterrupt(rules, faults.check) || faults.lock
    ensures ret == EAGAIN ==> numCounters != |old(t.info.rules)|
  {
    hide TableRefs, Fresh, Counting, HooksAccepted, TableInfo.Shape, TableInfo.Words, Registry.Bound,
         Table.SelfRef, Table.Valid, Table.Accounted, Zeros, Translatable, AnyInterrupt, TotalsAre,
         TableInfo.PacketRows, TableInfo.ByteRows;
    packets, bytes := [], [];
    if faults.copy {
      ret := EFAULT;
      return;
    }
    t.AccountedParts(reg, others);
    WordsExist(t.info);
    var newinfo;
    ret, newinfo := Prepare(reg, rules, hookEntry, underflow, cpus, validHooks, numEntries, faults.check);
    if ret != SUCCESS {
      t.PartsAccounted(reg, others);
      return;
    }
    ret := if faults.lock then EINTR else if validHooks != t.validHooks then EINVAL
           else if numCounters != |t.info.rules| then EAGAIN else SUCCESS;
    if ret != SUCCESS {
      Abandon(reg, rules, old(reg.useCount));
      t.PartsAccounted(reg, others);
      return;
    }
    packets, bytes := Install(reg, t, newinfo, others);
  }

  /** Giving back the references of a translated table that is not installed. */
  method Abandon(reg: Registry, rules: seq<Rule>, ghost before: multiset<string>)
    requires forall k :: 0 <= k < |rules| ==> reg.Bound(rules[k])
    requires reg.useCount == before + TableRefs(reg.matchMods, reg.targetMods, rules)
    modifies reg`useCount
    ensures reg.useCount == before
  {
    hide TableRefs, Registry.Bound;
    assert rules[..|rules|] == rules;
    SumContains(before, TableRefs(reg.matchMods, reg.targetMods, rules));
    reg.CleanupEntries(rules, |rules|);
    Cancel(reg.useCount, before, TableRefs(reg.matchMods, reg.targetMods, rules));
  }

  /** vmalloc and translate_table */
  method Prepare(reg: Registry, rules: seq<Rule>, hookEntry: seq<nat>, underflow: seq<nat>,
                 cpus: nat, validHooks: nat, numEntries: nat, interrupted: (nat, nat) -> bool)
    returns (ret: nat, newinfo: TableInfo)
    requires cpus > 0 && |hookEntry| == |underflow| == NF_IP_NUMHOOKS && HooksFollowable(rules, hookEntry, validHooks)
    modifies reg`useCount
    ensures fresh(newinfo) && fresh(newinfo.Words())
    ensures newinfo.rules == rules && newinfo.hookEntry == hookEntry && newinfo.underflow == underflow
    ensures reg.useCount == old(reg.useCount) +
      if ret == SUCCESS then TableRefs(reg.matchMods, reg.targetMods, rules) else multiset{}
    ensures ret == SUCCESS ==>
      && newinfo.Shape() && HooksAccepted(newinfo, validHooks) && numEntries == |rules| && Fresh(newinfo)
      && forall k :: 0 <= k < |rules| ==> reg.Bound(rules[k])
    ensures ret == SUCCESS <==>
      Translatable(reg, rules, hookEntry, underflow, validHooks, numEntries) && !AnyInterrupt(rules, interrupted)
    ensures ret in {SUCCESS, ENOENT, EINTR, EINVAL, ELOOP} && (ret == EINTR ==> AnyInterrupt(rules, interrupted))
  {
    hide *;
    newinfo := new TableInfo(rules, hookEntry, underflow, cpus);
    ret := TranslateTable(reg, newinfo, validHooks, numEntries, interrupted);
  }

  /** replace_table and what follows it in do_replace. */
  method Install(reg: Registry, t: Table, newinfo: TableInfo, ghost others: multiset<string>)
    returns (packets: seq<nat>, bytes: seq<nat>)
    requires t.Valid() && newinfo != t.info
    requires newinfo.Shape() && |newinfo.hookEntry| == |newinfo.underflow| == NF_IP_NUMHOOKS
    requires HooksAccepted(newinfo, t.validHooks) && Fresh(newinfo)
    requires forall k :: 0 <= k < |newinfo.rules| ==> reg.Bound(newinfo.rules[k])
    requires forall k :: 0 <= k < |t.info.rules| ==> reg.Bound(t.info.rules[k])
    requires reg.useCount == others + TableRefs(reg.matchMods, reg.targetMods, t.info.rules) + t.SelfRef()
      + TableRefs(reg.matchMods, reg.targetMods, newinfo.rules)
    modifies reg`useCount, t`info, t`packets, t`bytes, newinfo`initialEntries
    ensures t.Valid() && t.Accounted(reg, others)
    ensures t.info == newinfo && newinfo.initialEntries == old(t.info.initialEntries)
    ensures packets == old(t.packets) && bytes == old(t.bytes)
    ensures TotalsAre(old(t.info.PacketRows()), packets) && TotalsAre(old(t.info.ByteRows()), bytes)
    ensures t.packets == t.bytes == Zeros(|newinfo.rules|)
  {
    hide TableRefs, Fresh, Counting, HooksAccepted, TableInfo.Shape, Registry.Bound, Table.Valid,
         Table.Accounted, Table.SelfRef, OwnReference;
    t.ValidParts();
    CountingParts(t.info, t.packets, t.bytes);
    t.SelfRefParts();
    WordsExist(newinfo);
    var oldinfo := t.info;
    packets, bytes := Retire(reg, t.me, oldinfo, |newinfo.rules|, others,
                             TableRefs(reg.matchMods, reg.targetMods, newinfo.rules), t.packets, t.bytes);
    newinfo.initialEntries := oldinfo.initialEntries;
    t.info := newinfo;
    t.packets, t.bytes := Zeros(|newinfo.rules|), Zeros(|newinfo.rules|);
    StartsCounting(newinfo);
    t.PartsValid();
    t.SelfRefParts();
    t.PartsAccounted(reg, others);
  }

  ghost function Zeros(n: nat): (s: seq<nat>)
    ensures |s| == n
  {
    seq(n, _ => 0)
  }

  lemma StartsCounting(info: TableInfo)
    requires info.Shape() && Fresh(info)
    ensures Counting(info, Zeros(|info.rules|), Zeros(|info.rules|))
  {
    FreshTotals(info);
    forall i | 0 <= i < |info.copies| {
      info.InWords(i);
    }
    assert Zeros(|info.rules|) == seq(|info.rules|, _ => 0);
  }
}
