/** Use counts of match and target modules: check_match, check_entry, cleanup_match and
    cleanup_entry. A rule holds one reference on the owner of each of its matches and of
    its target; a check that fails half-way gives back exactly what it took. */
module ModuleUse {
  import opened IpMatch
  import opened Reference
  import opened RuleGraph
  import opened Wrappers

  /** A registered match or target: the kernel module that owns it, if any, and its
      optional checkentry function (one that always agrees, when absent). */
  datatype Module = Module(me: Option<string>, checkMatch: (Match, Rule) -> bool, checkTarget: Rule -> bool)

  const SUCCESS := 0
  const ENOENT := 2
  const EINTR := 4
  const EINVAL := 22

  const IPT_F_MASK: bv8 := 0x01
  const IPT_INV_MASK: bv8 := 0x7F

  function Owner(me: Option<string>): multiset<string> {
    if me.Some? then multiset{me.value} else multiset{}
  }

  function OwnerOf(mods: map<string, Module>, name: string): multiset<string> {
    if name in mods then Owner(mods[name].me) else multiset{}
  }

  /** References held by a list of matches. */
  function MatchRefs(mods: map<string, Module>, ms: seq<Match>): multiset<string> {
    if ms == [] then multiset{} else MatchRefs(mods, ms[..|ms| - 1]) + OwnerOf(mods, ms[|ms| - 1].name)
  }

  /** The built-in standard target belongs to no module. */
  function TargetRefs(mods: map<string, Module>, t: Target): multiset<string> {
    match t
    case Standard(_) => multiset{}
    case Extension(name, _) => OwnerOf(mods, name)
  }

  /** References held by a table. */
  function TableRefs(ms: map<string, Module>, ts: map<string, Module>, rules: seq<Rule>): multiset<string> {
    if rules == [] then multiset{}
    else
      var r := rules[|rules| - 1];
      TableRefs(ms, ts, rules[..|rules| - 1]) + MatchRefs(ms, r.matches) + TargetRefs(ts, r.target)
  }

  /** ip_checkentry */
  predicate KnownFlags(ip: IpInfo) {
    ip.flags & !IPT_F_MASK == 0 && ip.invflags & !IPT_INV_MASK == 0
  }

  /** standard_check: the verdict is a position in the table or one of the fixed verdicts. */
  predicate StandardCheck(verdict: int, size: nat) {
    !(verdict >= 0 && verdict >= size) && !(verdict < -NF_MAX_VERDICT - 1)
  }

  predicate AnyInterrupt(rules: seq<Rule>, interrupted: (nat, nat) -> bool) {
    exists k, j :: 0 <= k < |rules| && 0 <= j <= |rules[k].matches| && interrupted(k, j)
  }

  class Registry {
    const matchMods: map<string, Module>
    const targetMods: map<string, Module>
    var useCount: multiset<string>

    /** __MOD_INC_USE_COUNT, if there is a module */
    method ModInc(me: Option<string>)
      modifies this`useCount
      ensures useCount == old(useCount) + Owner(me)
      ensures forall x :: useCount[x] == if me == Some(x) then old(useCount)[x] + 1 else old(useCount)[x]
    {
      if me.Some? {
        useCount := useCount + multiset{me.value};
      }
    }

    /** __MOD_DEC_USE_COUNT, if there is a module; counts never go negative. */
    method ModDec(me: Option<string>)
      requires Owner(me) <= useCount
      modifies this`useCount
      ensures old(useCount) == useCount + Owner(me)
      ensures forall x :: old(useCount)[x] == if me == Some(x) then useCount[x] + 1 else useCount[x]
    {
      if me.Some? {
        useCount := useCount - multiset{me.value};
      }
    }

    /** find_match_lock and find_target_lock: the name may be unknown, and waiting for the
        mutex may be interrupted. */
    method Find(mods: map<string, Module>, name: string, interrupted: bool) returns (m: Option<Module>, error: nat)
      ensures m == if !interrupted && name in mods then Some(mods[name]) else None
      ensures error == if interrupted then 4 else if name !in mods then 2 else 0
    {
      if interrupted {
        return None, EINTR;
      }
      if name in mods {
        return Some(mods[name]), SUCCESS;
      }
      return None, ENOENT;
    }

    /** The match is registered and its own check agrees. */
    predicate MatchAgrees(m: Match, r: Rule) {
      m.name in matchMods && matchMods[m.name].checkMatch(m, r)
    }

    predicate TargetAgrees(r: Rule, size: nat) {
      match r.target
      case Standard(verdict) => StandardCheck(verdict, size)
      case Extension(name, _) => name in targetMods && targetMods[name].checkTarget(r)
    }

    /** What check_entry demands of a rule */
    predicate Acceptable(r: Rule, size: nat) {
      && KnownFlags(r.ip)
      && (forall k :: 0 <= k < |r.matches| ==> MatchAgrees(r.matches[k], r))
      && TargetAgrees(r, size)
    }

    method CheckMatch(m: Match, r: Rule, interrupted: bool) returns (ret: nat)
      modifies this`useCount
      ensures useCount == if ret == SUCCESS then old(useCount) + OwnerOf(matchMods, m.name) else old(useCount)
      ensures ret ==
        if interrupted then 4
        else if m.name !in matchMods then 2
        else if !matchMods[m.name].checkMatch(m, r) then 22
        else 0
    {
      var found: Option<Module>;
      found, ret := Find(matchMods, m.name, interrupted);
      if found.None? {
        return;
      }
      ModInc(found.value.me);
      if !found.value.checkMatch(m, r) {
        ModDec(found.value.me);
        Cancel(old(useCount), useCount, Owner(found.value.me));
        return EINVAL;
      }
      ret := SUCCESS;
    }

    /** IPT_MATCH_ITERATE(e, cleanup_match, &n), n a count; without a count, all matches */
    method CleanupMatches(ms: seq<Match>, n: nat)
      requires n <= |ms| && MatchRefs(matchMods, ms[..n]) <= useCount
      requires forall k :: 0 <= k < n ==> ms[k].name in matchMods
      modifies this`useCount
      ensures old(useCount) == useCount + MatchRefs(matchMods, ms[..n])
    {
      hide MatchRefs, OwnerOf;
      MatchRefsNone(matchMods, ms);
      var i := 0;
      while i < n
        invariant i <= n
        invariant old(useCount) == useCount + MatchRefs(matchMods, ms[..i])
      {
        OwnerFound(matchMods, ms[i].name);
        ghost var mine, before := OwnerOf(matchMods, ms[i].name), useCount;
        MatchRefsStep(matchMods, ms, i);
        MatchRefsMonotone(matchMods, ms, i + 1, n);
        Contained(MatchRefs(matchMods, ms[..i]), mine, useCount);
        ModDec(matchMods[ms[i].name].me);
        Regroup(MatchRefs(matchMods, ms[..i]), mine, useCount);
        i := i + 1;
      }
    }

    /** A rule is bound when all the modules it names were found. */
    ghost predicate Bound(r: Rule) {
      && (forall k :: 0 <= k < |r.matches| ==> r.matches[k].name in matchMods)
      && (r.target.Extension? ==> r.target.name in targetMods)
    }

    /** check_entry; `interrupted` says for which of the matches, and last for the target, the
        wait for the mutex is interrupted. */
    method CheckEntry(r: Rule, size: nat, interrupted: nat -> bool) returns (ret: nat)
      modifies this`useCount
      ensures useCount == old(useCount) + if ret == SUCCESS
        then MatchRefs(matchMods, r.matches) + TargetRefs(targetMods, r.target) else multiset{}
      ensures ret in {SUCCESS, ENOENT, EINTR, EINVAL}
      ensures ret == SUCCESS <==> Acceptable(r, size) && forall j :: 0 <= j <= |r.matches| ==> !interrupted(j)
      ensures ret == EINTR ==> exists j :: 0 <= j <= |r.matches| && interrupted(j)
      ensures ret == SUCCESS ==> Bound(r)
    {
      hide KnownFlags, MatchRefs, TargetRefs, StandardCheck, TargetAgrees, OwnerOf;
      if !KnownFlags(r.ip) {
        return EINVAL;
      }
      MatchRefsNone(matchMods, r.matches);
      var j := 0;
      ret := SUCCESS;
      while j < |r.matches| && ret == SUCCESS
        invariant j <= |r.matches|
        invariant useCount == old(useCount) + MatchRefs(matchMods, r.matches[..j])
        invariant forall k :: 0 <= k < j ==> MatchAgrees(r.matches[k], r) && !interrupted(k)
        invariant ret != SUCCESS ==>
          j < |r.matches| && if ret == EINTR then interrupted(j) else !MatchAgrees(r.matches[j], r)
        invariant ret in {SUCCESS, ENOENT, EINTR, EINVAL}
        decreases |r.matches| - j, ret == SUCCESS
      {
        MatchRefsStep(matchMods, r.matches, j);
        ret := CheckMatch(r.matches[j], r, interrupted(j));
        if ret == SUCCESS {
          j := j + 1;
        }
      }
      if ret == SUCCESS {
        assert r.matches[..j] == r.matches;
        ret := CheckTarget(r, size, interrupted(|r.matches|));
        if ret == SUCCESS {
          return;
        }
      }
      CleanupMatches(r.matches, j);
      Cancel(old(useCount), useCount, MatchRefs(matchMods, r.matches[..j]));
    }

    /** The target part of check_entry. The standard target is built in and has no owner. */
    method CheckTarget(r: Rule, size: nat, interrupted: bool) returns (ret: nat)
      modifies this`useCount
      ensures useCount == old(useCount) + if ret == SUCCESS then TargetRefs(targetMods, r.target) else multiset{}
      ensures ret == SUCCESS && r.target.Extension? ==> r.target.name in targetMods
      ensures ret ==
        if interrupted then 4
        else match r.target
             case Standard(verdict) => if -5 <= verdict < size then 0 else 22
             case Extension(name, _) =>
               if name !in targetMods then 2 else if !targetMods[name].checkTarget(r) then 22 else 0
      ensures ret == EINTR <==> interrupted
      ensures !interrupted ==> (ret == SUCCESS <==> TargetAgrees(r, size))
    {
      match r.target {
        case Standard(verdict) =>
          if interrupted {
            return EINTR;
          }
          ret := if StandardCheck(verdict, size) then SUCCESS else EINVAL;
        case Extension(name, _) =>
          var found: Option<Module>;
          found, ret := Find(targetMods, name, interrupted);
          if found.None? {
            return;
          }
          ModInc(found.value.me);
          if !found.value.checkTarget(r) {
            ModDec(found.value.me);
            Cancel(old(useCount), useCount, Owner(found.value.me));
            return EINVAL;
          }
          ret := SUCCESS;
      }
    }

    method CleanupEntry(r: Rule)
      requires Bound(r)
      requires MatchRefs(matchMods, r.matches) + TargetRefs(targetMods, r.target) <= useCount
      modifies this`useCount
      ensures old(useCount) == useCount + (MatchRefs(matchMods, r.matches) + TargetRefs(targetMods, r.target))
    {
      hide MatchRefs;
      assert r.matches[..|r.matches|] == r.matches;
      CleanupMatches(r.matches, |r.matches|);
      ghost var refs := MatchRefs(matchMods, r.matches);
      if r.target.Extension? {
        Contained(refs, TargetRefs(targetMods, r.target), useCount);
        ModDec(targetMods[r.target.name].me);
        Regroup(refs, TargetRefs(targetMods, r.target), useCount);
      }
    }

    /** IPT_ENTRY_ITERATE(..., cleanup_entry, &n): the first n rules */
    method CleanupEntries(rules: seq<Rule>, n: nat)
      requires n <= |rules| && TableRefs(matchMods, targetMods, rules[..n]) <= useCount
      requires forall k :: 0 <= k < n ==> Bound(rules[k])
      modifies this`useCount
      ensures old(useCount) == useCount + TableRefs(matchMods, targetMods, rules[..n])
    {
      hide TableRefs, MatchRefs, TargetRefs, Bound;
      TableRefsNone(matchMods, targetMods, rules);
      var i := 0;
      while i < n
        invariant i <= n
        invariant old(useCount) == useCount + TableRefs(matchMods, targetMods, rules[..i])
      {
        ghost var refs, mine := TableRefs(matchMods, targetMods, rules[..i]),
          MatchRefs(matchMods, rules[i].matches) + TargetRefs(targetMods, rules[i].target);
        TableRefsStep(matchMods, targetMods, rules, i);
        TableRefsMonotone(matchMods, targetMods, rules, i + 1, n);
        Contained(refs, mine, useCount);
        CleanupEntry(rules[i]);
        Regroup(refs, mine, useCount);
        i := i + 1;
      }
    }

    /** The loop of translate_table over check_entry, with its clean-up. */
    method CheckEntries(rules: seq<Rule>, interrupted: (nat, nat) -> bool) returns (ret: nat)
      modifies this`useCount
      ensures useCount == old(useCount) + if ret == SUCCESS then TableRefs(matchMods, targetMods, rules) else multiset{}
      ensures ret == SUCCESS ==> forall k :: 0 <= k < |rules| ==> Bound(rules[k])
      ensures ret in {SUCCESS, ENOENT, EINTR, EINVAL}
      ensures ret == SUCCESS <==>
        (forall k :: 0 <= k < |rules| ==> Acceptable(rules[k], |rules|)) && !AnyInterrupt(rules, interrupted)
      ensures ret == EINTR ==> AnyInterrupt(rules, interrupted)
    {
      hide TableRefs, MatchRefs, TargetRefs, Bound, Acceptable;
      TableRefsNone(matchMods, targetMods, rules);
      var i := 0;
      while i < |rules|
        invariant i <= |rules|
        invariant forall k :: 0 <= k < i ==> Acceptable(rules[k], |rules|)
        invariant forall k, j :: 0 <= k < i && 0 <= j <= |rules[k].matches| ==> !interrupted(k, j)
        invariant useCount == old(useCount) + TableRefs(matchMods, targetMods, rules[..i])
        invariant forall k :: 0 <= k < i ==> Bound(rules[k])
      {
        TableRefsStep(matchMods, targetMods, rules, i);
        Regroup(MatchRefs(matchMods, rules[i].matches) + TargetRefs(targetMods, rules[i].target),
                TableRefs(matchMods, targetMods, rules[..i]), old(useCount));
        var here := (j: nat) => interrupted(i, j);
        ret := CheckEntry(rules[i], |rules|, here);
        assert forall j: nat :: here(j) == interrupted(i, j);
        if ret != SUCCESS {
          CleanupEntries(rules, i);
          Cancel(old(useCount), useCount, TableRefs(matchMods, targetMods, rules[..i]));
          return;
        }
        i := i + 1;
      }
      assert rules[..i] == rules;
      ret := SUCCESS;
    }
  }

  lemma OwnerFound(mods: map<string, Module>, name: string)
    requires name in mods
    ensures OwnerOf(mods, name) == Owner(mods[name].me)
  {
  }

  lemma MatchRefsStep(mods: map<string, Module>, ms: seq<Match>, i: nat)
    requires i < |ms|
    ensures MatchRefs(mods, ms[..i + 1]) == MatchRefs(mods, ms[..i]) + OwnerOf(mods, ms[i].name)
  {
    assert ms[..i + 1][..i] == ms[..i];
  }

  lemma {:induction false} MatchRefsMonotone(mods: map<string, Module>, ms: seq<Match>, i: nat, n: nat)
    requires i <= n <= |ms|
    ensures MatchRefs(mods, ms[..i]) <= MatchRefs(mods, ms[..n])
  {
    hide MatchRefs, OwnerOf;
    if i < n {
      MatchRefsMonotone(mods, ms, i, n - 1);
      MatchRefsStep(mods, ms, n - 1);
    }
  }

  lemma TableRefsStep(ms: map<string, Module>, ts: map<string, Module>, rules: seq<Rule>, i: nat)
    requires i < |rules|
    ensures TableRefs(ms, ts, rules[..i + 1])
         == TableRefs(ms, ts, rules[..i]) + (MatchRefs(ms, rules[i].matches) + TargetRefs(ts, rules[i].target))
  {
    assert rules[..i + 1][..i] == rules[..i];
  }

  lemma {:induction false} TableRefsMonotone(ms: map<string, Module>, ts: map<string, Module>, rules: seq<Rule>, i: nat, n: nat)
    requires i <= n <= |rules|
    ensures TableRefs(ms, ts, rules[..i]) <= TableRefs(ms, ts, rules[..n])
  {
    hide TableRefs, MatchRefs, TargetRefs;
    if i < n {
      TableRefsMonotone(ms, ts, rules, i, n - 1);
      TableRefsStep(ms, ts, rules, n - 1);
    }
  }

  lemma MatchRefsNone(mods: map<string, Module>, ms: seq<Match>)
    ensures MatchRefs(mods, ms[..0]) == multiset{}
  {
  }

  lemma TableRefsNone(ms: map<string, Module>, ts: map<string, Module>, rules: seq<Rule>)
    ensures TableRefs(ms, ts, rules[..0]) == multiset{}
  {
  }

  // ----- What the reference counts mean -----

  /** The module x owns the registered name. */
  predicate Owns(mods: map<string, Module>, name: string, x: string) {
    name in mods && mods[name].me == Some(x)
  }

  /** The matches a module owns, by position */
  function Owned(mods: map<string, Module>, ms: seq<Match>, x: string): set<nat> {
    set j: nat | j < |ms| && Owns(mods, ms[j].name, x)
  }

  lemma OwnerMeans(mods: map<string, Module>, name: string, x: string)
    ensures OwnerOf(mods, name)[x] == if Owns(mods, name, x) then 1 else 0
  {
  }

  lemma {:induction false} MatchRefsCount(mods: map<string, Module>, ms: seq<Match>, x: string)
    ensures MatchRefs(mods, ms)[x] == |Owned(mods, ms, x)|
  {
    hide Owns;
    if ms != [] {
      var n: nat := |ms| - 1;
      MatchRefsCount(mods, ms[..n], x);
      OwnerMeans(mods, ms[n].name, x);
      assert Owned(mods, ms, x) == if Owns(mods, ms[n].name, x)
        then Owned(mods, ms[..n], x) + {n} else Owned(mods, ms[..n], x);
    }
  }

  /** The matches of a table's rules that a module owns, by rule and position */
  function OwnedMatches(mods: map<string, Module>, rules: seq<Rule>, x: string): set<(nat, nat)> {
    set k: nat, j: nat | k < |rules| && j < |rules[k].matches| && Owns(mods, rules[k].matches[j].name, x) :: (k, j)
  }

  function OwnedTargets(mods: map<string, Module>, rules: seq<Rule>, x: string): set<nat> {
    set k: nat | k < |rules| && rules[k].target.Extension? && Owns(mods, rules[k].target.name, x)
  }

  /** A table holds one reference on a module for each match and each target the module owns. */
  lemma {:induction false} TableRefsCount(ms: map<string, Module>, ts: map<string, Module>, rules: seq<Rule>, x: string)
    ensures TableRefs(ms, ts, rules)[x] == |OwnedMatches(ms, rules, x)| + |OwnedTargets(ts, rules, x)|
  {
    hide OwnedMatches, OwnedTargets, Owned, MatchRefs, TargetRefs;
    if rules == [] {
      NothingOwned(ms, ts, rules, x);
    } else {
      var n: nat, r := |rules| - 1, rules[|rules| - 1];
      TableRefsCount(ms, ts, rules[..n], x);
      MatchRefsCount(ms, r.matches, x);
      OneMoreRow(ms, rules, x);
      OneMoreTarget(ts, rules, x);
    }
  }

  lemma NothingOwned(ms: map<string, Module>, ts: map<string, Module>, rules: seq<Rule>, x: string)
    requires rules == []
    ensures OwnedMatches(ms, rules, x) == {} && OwnedTargets(ts, rules, x) == {}
  {
  }

  function Pairs(n: nat, row: set<nat>): set<(nat, nat)> {
    set j | j in row :: (n, j)
  }

  lemma RowSplit(mods: map<string, Module>, rules: seq<Rule>, n: nat, x: string)
    requires |rules| == n + 1
    ensures OwnedMatches(mods, rules, x) == OwnedMatches(mods, rules[..n], x) + Pairs(n, Owned(mods, rules[n].matches, x))
  {
    hide Owns;
    assert forall k :: 0 <= k < n ==> rules[..n][k] == rules[k];
  }

  lemma OneMoreRow(mods: map<string, Module>, rules: seq<Rule>, x: string)
    requires rules != []
    ensures var n := |rules| - 1;
      |OwnedMatches(mods, rules, x)| == |OwnedMatches(mods, rules[..n], x)| + |Owned(mods, rules[n].matches, x)|
  {
    hide Owns, Owned;
    var n: nat := |rules| - 1;
    RowSplit(mods, rules, n, x);
    Paired(n, Owned(mods, rules[n].matches, x));
    assert OwnedMatches(mods, rules[..n], x) !! Pairs(n, Owned(mods, rules[n].matches, x));
  }

  lemma OneMoreTarget(mods: map<string, Module>, rules: seq<Rule>, x: string)
    requires rules != []
    ensures var n := |rules| - 1;
      |OwnedTargets(mods, rules, x)| == |OwnedTargets(mods, rules[..n], x)| + TargetRefs(mods, rules[n].target)[x]
  {
    var n: nat := |rules| - 1;
    var before := OwnedTargets(mods, rules[..n], x);
    if rules[n].target.Extension? && Owns(mods, rules[n].target.name, x) {
      assert OwnedTargets(mods, rules, x) == before + {n};
    } else {
      assert OwnedTargets(mods, rules, x) == before;
    }
  }

  lemma {:induction false} Paired(n: nat, row: set<nat>)
    ensures |Pairs(n, row)| == |row|
  {
    if row == {} {
      assert Pairs(n, row) == {};
    } else {
      var j :| j in row;
      Paired(n, row - {j});
      assert (n, j) !in Pairs(n, row - {j});
      assert Pairs(n, row) == Pairs(n, row - {j}) + {(n, j)};
    }
  }

  /** ip_checkentry spelled out: only the known bits of the two flag bytes are set. */
  lemma KnownFlagsMean(ip: IpInfo)
    ensures KnownFlags(ip) <==> ip.flags | 0x01 == 0x01 && ip.invflags | 0x7F == 0x7F
  {
  }

  // ----- Sums of references -----

  /** Of `total` + a references, a + b are accounted for: b of them are in total. */
  lemma Contained(a: multiset<string>, b: multiset<string>, total: multiset<string>)
    requires a + b <= total + a
    ensures b <= total
  {
    forall x ensures b[x] <= total[x] {
      assert (a + b)[x] <= (total + a)[x];
    }
  }

  lemma Regroup(a: multiset<string>, b: multiset<string>, total: multiset<string>)
    ensures (total + b) + a == total + (a + b) == total + (b + a)
  {
  }

  lemma Cancel(before: multiset<string>, after: multiset<string>, a: multiset<string>)
    requires before + a == after + a
    ensures before == after
  {
    forall x ensures before[x] == after[x] {
      assert (before + a)[x] == (after + a)[x];
    }
  }
}
