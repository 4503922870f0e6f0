/** Rules of one table, the control-flow graph they span, and its cycles.
    A rule's position stands for its byte offset; the rule after it is at position + 1. */
module RuleGraph {
  import opened IpMatch

  /** Result of one match extension: did it match, and did it set *hotdrop? It is given the
      packet, both devices and the fragment offset. */
  datatype MatchResult = MatchResult(matched: bool, hotdrop: bool)
  datatype Match = Match(name: string, fn: (Packet, Iface, Iface, nat) -> MatchResult)

  /** A standard target holds a verdict; an extension is a function that may rewrite the packet. */
  datatype Target =
    | Standard(verdict: int)
    | Extension(name: string, fn: (Packet, nat, Iface, Iface) -> (int, Packet))

  datatype Rule = Rule(ip: IpInfo, nfcache: bv32, matches: seq<Match>, target: Target)

  /** The test of mark_source_chains for "unconditional return/END". */
  predicate Terminal(r: Rule) {
    r.matches == [] && r.target.Standard? && r.target.verdict < 0 && Unconditional(r.ip)
  }

  predicate IsJump(r: Rule) {
    r.target.Standard? && r.target.verdict >= 0
  }

  /** Control may pass from rule p to rule q without leaving the table: a jump reaches its
      target and, once the target's chain has returned, the rule after it. */
  ghost predicate Edge(rules: seq<Rule>, p: nat, q: nat) {
    && p < |rules| && q < |rules|
    && !Terminal(rules[p])
    && (q == p + 1 || (IsJump(rules[p]) && q == rules[p].target.verdict))
  }

  ghost predicate Hop(rules: seq<Rule>, path: seq<nat>, i: nat) {
    i + 1 < |path| && Edge(rules, path[i], path[i + 1])
  }

  ghost predicate IsPath(rules: seq<Rule>, path: seq<nat>) {
    && path != []
    && (forall i :: 0 <= i < |path| ==> path[i] < |rules|)
    && forall i :: 0 <= i < |path| - 1 ==> Hop(rules, path, i)
  }

  ghost predicate PathBetween(rules: seq<Rule>, a: nat, b: nat, path: seq<nat>) {
    IsPath(rules, path) && path[0] == a && path[|path| - 1] == b
  }

  ghost predicate Reachable(rules: seq<Rule>, a: nat, b: nat) {
    exists path :: PathBetween(rules, a, b, path)
  }

  /** a leads to c by at least one edge. */
  ghost predicate Precedes(rules: seq<Rule>, a: nat, c: nat) {
    exists b :: Edge(rules, a, b) && Reachable(rules, b, c)
  }

  ghost predicate ReachesCycle(rules: seq<Rule>, a: nat) {
    exists b :: Reachable(rules, a, b) && Precedes(rules, b, b)
  }

  /** Wherever rule p sends control, there is a rule. */
  ghost predicate StaysInTable(rules: seq<Rule>, p: nat) {
    p < |rules| && (Terminal(rules[p]) ||
      (p + 1 < |rules| && (IsJump(rules[p]) ==> rules[p].target.verdict < |rules|)))
  }

  /** Control entering at rule a never leaves the table; rules it cannot reach may be anything. */
  ghost predicate Followable(rules: seq<Rule>, a: nat) {
    forall q :: Reachable(rules, a, q) ==> StaysInTable(rules, q)
  }

  /** A rule from which every walk stays in the table and ends. */
  ghost predicate Sound(rules: seq<Rule>, a: nat) {
    a < |rules| && !ReachesCycle(rules, a) && Followable(rules, a)
  }

  lemma FollowableFrom(rules: seq<Rule>, a: nat, b: nat)
    requires Followable(rules, a) && Reachable(rules, a, b)
    ensures Followable(rules, b) && StaysInTable(rules, b)
  {
    hide StaysInTable;
    forall q: nat | Reachable(rules, b, q) ensures StaysInTable(rules, q) {
      ReachableTrans(rules, a, b, q);
    }
  }

  lemma ReachableSelf(rules: seq<Rule>, a: nat)
    requires a < |rules|
    ensures Reachable(rules, a, a)
  {
    assert PathBetween(rules, a, a, [a]);
  }

  lemma ReachableTrans(rules: seq<Rule>, a: nat, b: nat, c: nat)
    requires Reachable(rules, a, b) && Reachable(rules, b, c)
    ensures Reachable(rules, a, c)
  {
    var p: seq<nat> :| PathBetween(rules, a, b, p);
    var q: seq<nat> :| PathBetween(rules, b, c, q);
    var pq := p + q[1..];
    forall i | 0 <= i < |pq| - 1
      ensures Hop(rules, pq, i)
    {
      if i >= |p| - 1 {
        var j := i - (|p| - 1);
        assert Hop(rules, q, j);
        assert pq[i] == q[j] && pq[i + 1] == q[j + 1];
      } else {
        assert Hop(rules, p, i);
      }
    }
    assert PathBetween(rules, a, c, pq);
  }

  lemma ReachableEdge(rules: seq<Rule>, a: nat, b: nat)
    requires Edge(rules, a, b)
    ensures Reachable(rules, a, b) && Precedes(rules, a, b)
  {
    assert Hop(rules, [a, b], 0);
    assert PathBetween(rules, a, b, [a, b]);
    ReachableSelf(rules, b);
  }

  lemma PrecedesTrans(rules: seq<Rule>, a: nat, b: nat, c: nat)
    requires Precedes(rules, a, b) && Reachable(rules, b, c)
    ensures Precedes(rules, a, c)
  {
    var x: nat :| Edge(rules, a, x) && Reachable(rules, x, b);
    ReachableTrans(rules, x, b, c);
  }

  lemma AcyclicStep(rules: seq<Rule>, a: nat, b: nat)
    requires !ReachesCycle(rules, a) && Reachable(rules, a, b)
    ensures !ReachesCycle(rules, b)
  {
    if ReachesCycle(rules, b) {
      var c: nat :| Reachable(rules, b, c) && Precedes(rules, c, c);
      ReachableTrans(rules, a, b, c);
    }
  }

  /** The rules control can visit from a. */
  ghost function ReachSet(rules: seq<Rule>, a: nat): set<nat> {
    set q | 0 <= q < |rules| && Reachable(rules, a, q)
  }

  /** Following an edge of an acyclic region leaves strictly fewer rules to visit. */
  lemma EdgeShrinks(rules: seq<Rule>, a: nat, b: nat)
    requires Edge(rules, a, b) && !ReachesCycle(rules, a)
    ensures ReachSet(rules, b) < ReachSet(rules, a)
    ensures !ReachesCycle(rules, b)
  {
    ReachableEdge(rules, a, b);
    AcyclicStep(rules, a, b);
    forall q | q in ReachSet(rules, b) ensures q in ReachSet(rules, a) {
      ReachableTrans(rules, a, b, q);
    }
    ReachableSelf(rules, a);
    assert a in ReachSet(rules, a) && a !in ReachSet(rules, b);
  }

  /** What a step from a sound rule reaches is sound, with strictly fewer rules to visit. */
  lemma SoundStep(rules: seq<Rule>, a: nat, b: nat)
    requires Sound(rules, a) && Edge(rules, a, b)
    ensures Sound(rules, b) && ReachSet(rules, b) < ReachSet(rules, a)
  {
    hide ReachesCycle, Followable;
    EdgeShrinks(rules, a, b);
    ReachableEdge(rules, a, b);
    FollowableFrom(rules, a, b);
  }

  /** A rule that ends a chain leads nowhere. */
  lemma TerminalIsSound(rules: seq<Rule>, a: nat)
    requires a < |rules| && Terminal(rules[a])
    ensures Sound(rules, a)
  {
    forall b: nat | Reachable(rules, a, b) ensures b == a {
      var p: seq<nat> :| PathBetween(rules, a, b, p);
      assert |p| > 1 ==> Hop(rules, p, 0);
    }
  }

  /** A rule without matches, with an all-zero address block and a negative standard verdict,
      RETURN included, ends its chain: nothing but the rule itself can be reached from it. */
  lemma EndsItsChain(rules: seq<Rule>, p: nat, q: nat)
    requires p < |rules| && rules[p].matches == [] && rules[p].target.Standard? && rules[p].target.verdict < 0
    requires rules[p].ip == IpInfo(0, 0, 0, 0, [0, 0, 0, 0], [0, 0, 0, 0], [0, 0, 0, 0], [0, 0, 0, 0], 0, 0, 0)
    ensures Reachable(rules, p, q) <==> q == p
  {
    if Reachable(rules, p, q) {
      var path: seq<nat> :| PathBetween(rules, p, q, path);
      assert |path| > 1 ==> Hop(rules, path, 0);
    }
    ReachableSelf(rules, p);
  }

  /** Every other rule leads to the rule behind it, a jump also to its target, and no rule
      anywhere else. */
  lemma LeadsOn(rules: seq<Rule>, p: nat, q: nat)
    requires p < |rules| && q < |rules|
    requires rules[p].matches != [] || !rules[p].target.Standard? || rules[p].target.verdict >= 0
      || rules[p].ip != IpInfo(0, 0, 0, 0, [0, 0, 0, 0], [0, 0, 0, 0], [0, 0, 0, 0], [0, 0, 0, 0], 0, 0, 0)
    ensures Edge(rules, p, q) <==> q == p + 1 || rules[p].target == Standard(q)
  {
  }

  /** A duplicate-free sequence of numbers below n has at most n elements. */
  lemma DistinctBounded(s: seq<nat>, n: nat)
    requires forall i :: 0 <= i < |s| ==> s[i] < n
    requires forall i, j :: 0 <= i < j < |s| ==> s[i] != s[j]
    ensures |s| <= n
  {
    if s == [] {
    } else {
      assert s[0] < n;
      if k :| 0 <= k < |s| && s[k] == n - 1 {
        DistinctBounded(s[..k] + s[k + 1..], n - 1);
      } else {
        DistinctBounded(s, n - 1);
      }
    }
  }
}
