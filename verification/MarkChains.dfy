/** mark_source_chains: finds out from which hooks each rule can be reached, and whether
    there are loops, by a depth-first search without a stack. The packet counter of a rule
    on the path holds the position the search came from; bit 5 of comefrom marks the path. */
module MarkChains {
  import opened CameFrom
  import opened IpMatch
  import opened PathWeight
  import opened RuleGraph

  // ----- What the search knows, stated over snapshots of the two arrays -----

  ghost predicate Distinct(s: seq<nat>) {
    forall i, j :: 0 <= i < j < |s| ==> s[i] != s[j]
  }

  /** The position the counter of path[i] leads back to; the entry leads to itself. */
  ghost function BackLink(path: seq<nat>, i: nat): nat
    requires i < |path|
  {
    if i == 0 then path[0] else path[i - 1]
  }

  /** The counters of `path` spell the path backwards and every other counter is zero. */
  ghost predicate Threaded(pcnt: seq<nat>, path: seq<nat>) {
    && (forall i :: 0 <= i < |path| ==> path[i] < |pcnt| && pcnt[path[i]] == BackLink(path, i))
    && forall q :: 0 <= q < |pcnt| && q !in path ==> pcnt[q] == 0
  }

  /** Bit 5 marks exactly the rules of `onPath`; compared with the words `base` the search
      of this hook started from, bit `hook` was added for the rules seen. */
  ghost predicate Marked(comefrom: seq<nat>, base: seq<nat>, hook: nat, onPath: seq<nat>, seen: set<nat>) {
    && |comefrom| == |base|
    && (forall q :: 0 <= q < |comefrom| ==> Bit(comefrom[q], ON_PATH) == (q in onPath))
    && forall q, g :: 0 <= q < |comefrom| && 0 <= g < NF_IP_NUMHOOKS ==>
         Bit(comefrom[q], g) == (Bit(base[q], g) || (g == hook && q in seen))
  }

  /** Rules in `rank` are searched completely: all their successors are searched too, and
      every edge between them goes down in rank, so no cycle passes through them. */
  ghost predicate Explored(rules: seq<Rule>, rank: map<nat, nat>) {
    forall q, s :: q in rank && Edge(rules, q, s) ==> s in rank && rank[s] < rank[q]
  }

  ghost predicate SuccessorsExplored(rules: seq<Rule>, rank: map<nat, nat>, p: nat, except: nat) {
    forall s :: Edge(rules, p, s) && s != except ==> s in rank
  }

  /** A path step to the following rule is taken last: the jump before it is searched. */
  ghost predicate JumpsFirst(rules: seq<Rule>, path: seq<nat>, rank: map<nat, nat>) {
    forall i, j :: 0 <= i && j == i + 1 < |path| && path[j] == path[i] + 1 ==>
      SuccessorsExplored(rules, rank, path[i], path[j])
  }

  /** The search path: starts at the hook's entry, follows edges, does not cross itself. */
  ghost predicate SearchPath(rules: seq<Rule>, entry: nat, path: seq<nat>) {
    IsPath(rules, path) && path[0] == entry && Distinct(path)
  }

  ghost predicate SeenReachable(rules: seq<Rule>, entry: nat, seen: set<nat>) {
    forall q :: q in seen ==> q < |rules| && Reachable(rules, entry, q)
  }

  // ----- Steps of the search -----

  lemma PathPrefix(rules: seq<Rule>, path: seq<nat>, k: nat)
    requires IsPath(rules, path) && 0 < k <= |path|
    ensures IsPath(rules, path[..k])
  {
    forall i | 0 <= i < k - 1 ensures Hop(rules, path[..k], i) {
      assert Hop(rules, path, i);
    }
  }

  lemma PathExtend(rules: seq<Rule>, path: seq<nat>, q: nat)
    requires IsPath(rules, path) && Edge(rules, path[|path| - 1], q)
    ensures IsPath(rules, path + [q])
  {
    var r := path + [q];
    forall i | 0 <= i < |r| - 1 ensures Hop(rules, r, i) {
      if i < |path| - 1 {
        assert Hop(rules, path, i);
      }
    }
  }

  /** An edge back into the search path closes a cycle reachable from the entry. */
  lemma BackEdgeIsCycle(rules: seq<Rule>, entry: nat, path: seq<nat>, q: nat)
    requires IsPath(rules, path) && path[0] == entry && q in path
    requires Edge(rules, path[|path| - 1], q)
    ensures ReachesCycle(rules, entry)
  {
    var k :| 0 <= k < |path| && path[k] == q;
    PathPrefix(rules, path, k + 1);
    assert PathBetween(rules, entry, q, path[..k + 1]);
    var tail := path[k..];
    forall i | 0 <= i < |tail| - 1 ensures Hop(rules, tail, i) {
      assert Hop(rules, path, k + i);
    }
    var last := path[|path| - 1];
    assert PathBetween(rules, q, last, tail);
    PathExtend(rules, tail, q);
    assert (tail + [q])[0] == q;
    PathIsReachable(rules, tail + [q]);
    var longer := tail + [q];
    CycleFromPath(rules, longer);
  }

  lemma PathIsReachable(rules: seq<Rule>, path: seq<nat>)
    requires IsPath(rules, path)
    ensures Reachable(rules, path[0], path[|path| - 1])
  {
    assert PathBetween(rules, path[0], path[|path| - 1], path);
  }

  lemma CycleFromPath(rules: seq<Rule>, path: seq<nat>)
    requires IsPath(rules, path) && |path| > 1 && path[0] == path[|path| - 1]
    ensures Precedes(rules, path[0], path[0])
  {
    assert Hop(rules, path, 0);
    var rest := path[1..];
    forall i | 0 <= i < |rest| - 1 ensures Hop(rules, rest, i) {
      assert Hop(rules, path, i + 1);
    }
    assert PathBetween(rules, path[1], path[0], rest);
  }

  /** A rule whose successors are all searched can be ranked above them. */
  lemma Complete(rules: seq<Rule>, rank: map<nat, nat>, p: nat) returns (rank': map<nat, nat>)
    requires p < |rules|
    requires Explored(rules, rank)
    requires forall s :: Edge(rules, p, s) ==> s in rank
    ensures Explored(rules, rank')
    ensures rank'.Keys == rank.Keys + {p}
  {
    if p in rank {
      rank' := rank;
    } else {
      var next := if p + 1 in rank then rank[p + 1] else 0;
      var v := if IsJump(rules[p]) then rules[p].target.verdict else 0;
      var far := if v in rank then rank[v] else 0;
      rank' := rank[p := next + far + 1];
      forall q, s | q in rank' && Edge(rules, q, s)
        ensures s in rank' && rank'[s] < rank'[q]
      {
        if q == p {
          assert s in rank;
        } else {
          assert s in rank && s != p;
        }
      }
    }
  }

  /** A completely searched region is closed under reachability. */
  lemma ExploredIsClosed(rules: seq<Rule>, rank: map<nat, nat>, path: seq<nat>, i: nat)
    requires Explored(rules, rank) && IsPath(rules, path) && path[0] in rank && i < |path|
    ensures path[i] in rank && rank[path[i]] + i <= rank[path[0]]
  {
    if i > 0 {
      ExploredIsClosed(rules, rank, path, i - 1);
      assert Hop(rules, path, i - 1);
    }
  }

  /** Once the entry is completely searched, everything reachable is, and there is no cycle. */
  lemma ExploredIsAcyclic(rules: seq<Rule>, rank: map<nat, nat>, entry: nat)
    requires Explored(rules, rank) && entry in rank
    ensures forall q :: Reachable(rules, entry, q) ==> q in rank
    ensures !ReachesCycle(rules, entry)
  {
    forall q: nat | Reachable(rules, entry, q) ensures q in rank {
      var path: seq<nat> :| PathBetween(rules, entry, q, path);
      ExploredIsClosed(rules, rank, path, |path| - 1);
    }
    forall b: nat | Reachable(rules, entry, b) ensures !Precedes(rules, b, b) {
      if Precedes(rules, b, b) {
        var c: nat :| Edge(rules, b, c) && Reachable(rules, c, b);
        var path: seq<nat> :| PathBetween(rules, c, b, path);
        ExploredIsClosed(rules, rank, path, |path| - 1);
        assert false;
      }
    }
  }

  /** Marking a rule as seen by this hook and on the path. */
  lemma MarkStep(comefrom: seq<nat>, base: seq<nat>, hook: nat, path: seq<nat>, seen: set<nat>, p: nat)
    requires hook < NF_IP_NUMHOOKS && p < |comefrom|
    requires Marked(comefrom, base, hook, path, seen)
    ensures Marked(comefrom[p := SetBit(SetBit(comefrom[p], hook), ON_PATH)], base, hook, path + [p], seen + {p})
  {
    forall g | 0 <= g <= ON_PATH
      ensures Bit(SetBit(SetBit(comefrom[p], hook), ON_PATH), g) == (g == ON_PATH || g == hook || Bit(comefrom[p], g))
    {
      BitLaws(SetBit(comefrom[p], hook), ON_PATH, g);
      BitLaws(comefrom[p], hook, g);
    }
  }

  /** Taking the last rule off the path. */
  lemma UnmarkStep(comefrom: seq<nat>, base: seq<nat>, hook: nat, path: seq<nat>, p: nat, seen: set<nat>)
    requires p < |comefrom| && p !in path
    requires Marked(comefrom, base, hook, path + [p], seen)
    ensures Marked(comefrom[p := FlipBit(comefrom[p], ON_PATH)], base, hook, path, seen)
  {
    forall g | 0 <= g <= ON_PATH
      ensures Bit(FlipBit(comefrom[p], ON_PATH), g) == (if g == ON_PATH then !Bit(comefrom[p], g) else Bit(comefrom[p], g))
    {
      BitLaws(comefrom[p], ON_PATH, g);
    }
    assert p in path + [p];
    forall q | 0 <= q < |comefrom| && q != p
      ensures q in path + [p] <==> q in path
    {
    }
  }

  lemma PopThread(pcnt: seq<nat>, path: seq<nat>, p: nat)
    requires p !in path && p < |pcnt| && Threaded(pcnt, path + [p])
    ensures Threaded(pcnt[p := 0], path)
    ensures pcnt[p] == if path == [] then p else path[|path| - 1]
  {
    var longer := path + [p];
    assert longer[|path|] == p && pcnt[p] == BackLink(longer, |path|);
    forall i | 0 <= i < |path|
      ensures path[i] < |pcnt| && pcnt[p := 0][path[i]] == BackLink(path, i)
    {
      assert longer[i] == path[i] && path[i] in path;
      assert BackLink(longer, i) == BackLink(path, i);
    }
    forall q | 0 <= q < |pcnt| && q !in path
      ensures pcnt[p := 0][q] == 0
    {
      assert q != p ==> q !in longer;
    }
  }

  lemma PushThread(pcnt: seq<nat>, path: seq<nat>, p: nat, q: nat)
    requires path != [] && path[|path| - 1] == p && q < |pcnt| && q !in path && Threaded(pcnt, path)
    ensures Threaded(pcnt[q := p], path + [q])
  {
    var longer := path + [q];
    forall i | 0 <= i < |longer|
      ensures longer[i] < |pcnt| && pcnt[q := p][longer[i]] == BackLink(longer, i)
    {
      if i < |path| {
        assert longer[i] == path[i] && path[i] in path;
        assert BackLink(longer, i) == BackLink(path, i);
      }
    }
    forall x | 0 <= x < |pcnt| && x !in longer
      ensures pcnt[q := p][x] == 0
    {
      assert longer[|path|] == q;
      assert forall i :: 0 <= i < |path| ==> longer[i] == path[i];
    }
  }

  lemma JumpsFirstPrefix(rules: seq<Rule>, path: seq<nat>, p: nat, rank: map<nat, nat>, rank': map<nat, nat>)
    requires JumpsFirst(rules, path + [p], rank) && rank.Keys <= rank'.Keys
    ensures JumpsFirst(rules, path, rank')
    ensures path != [] && p == path[|path| - 1] + 1 ==> SuccessorsExplored(rules, rank, path[|path| - 1], p)
  {
    var longer := path + [p];
    forall i, j | 0 <= i && j == i + 1 < |path| && path[j] == path[i] + 1
      ensures SuccessorsExplored(rules, rank', path[i], path[j])
    {
      assert longer[i] == path[i] && longer[j] == path[j];
    }
    if path != [] {
      var i, j := |path| - 1, |path|;
      assert longer[i] == path[i] && longer[j] == p;
    }
  }

  lemma JumpsFirstExtend(rules: seq<Rule>, path: seq<nat>, p: nat, q: nat, rank: map<nat, nat>)
    requires path != [] && path[|path| - 1] == p && JumpsFirst(rules, path, rank)
    requires q == p + 1 ==> SuccessorsExplored(rules, rank, p, q)
    ensures JumpsFirst(rules, path + [q], rank)
  {
  }

  /** The state of the search at rule p, `path` being the rules before it: all of
      path + [p] is on the path and threaded. */
  ghost predicate Searching(rules: seq<Rule>, words: seq<nat>, links: seq<nat>, base: seq<nat>, hook: nat,
                            entry: nat, path: seq<nat>, p: nat, seen: set<nat>, rank: map<nat, nat>) {
    && |words| == |links| == |rules| && p < |rules|
    && SearchPath(rules, entry, path + [p]) && p !in path
    && Threaded(links, path + [p])
    && Marked(words, base, hook, path + [p], seen)
    && JumpsFirst(rules, path + [p], rank)
    && Explored(rules, rank) && rank.Keys <= seen
    && SeenReachable(rules, entry, seen)
  }

  lemma PathPop(rules: seq<Rule>, entry: nat, init: seq<nat>, q: nat, p: nat)
    requires SearchPath(rules, entry, init + [q] + [p])
    ensures SearchPath(rules, entry, init + [q]) && q !in init && p !in init + [q] && Edge(rules, q, p)
  {
    var path := init + [q];
    var longer := path + [p];
    PathPrefix(rules, longer, |path|);
    assert longer[..|path|] == path;
    assert Hop(rules, longer, |init|);
    assert longer[|init|] == q && longer[|init| + 1] == p;
    assert longer[0] == path[0];
    DistinctPrefix(path, p);
    DistinctPrefix(init, q);
  }

  lemma DistinctPrefix(path: seq<nat>, p: nat)
    requires Distinct(path + [p])
    ensures Distinct(path) && p !in path
  {
    var longer := path + [p];
    forall i, j | 0 <= i < j < |path| ensures path[i] != path[j] {
      assert longer[i] == path[i] && longer[j] == path[j];
    }
    forall i | 0 <= i < |path| ensures path[i] != p {
      assert longer[i] == path[i] && longer[|path|] == p;
    }
  }

  lemma OnPathStays(rules: seq<Rule>, entry: nat, init: seq<nat>, q: nat)
    requires Followable(rules, entry) && SearchPath(rules, entry, init + [q])
    ensures StaysInTable(rules, q)
  {
    PathIsReachable(rules, init + [q]);
  }

  /** Leaving a completely searched rule p that was entered from q steps the search back to q. */
  lemma PopStep(rules: seq<Rule>, words: seq<nat>, links: seq<nat>, base: seq<nat>, hook: nat, entry: nat,
                init: seq<nat>, q: nat, p: nat, seen: set<nat>, rank: map<nat, nat>, rank': map<nat, nat>)
    requires Followable(rules, entry)
    requires Searching(rules, words, links, base, hook, entry, init + [q], p, seen, rank)
    requires Explored(rules, rank') && rank'.Keys == rank.Keys + {p} <= seen
    ensures links[p] == q != p && q < |rules| && Edge(rules, q, p)
    ensures Searching(rules, words[p := FlipBit(words[p], ON_PATH)], links[p := 0], base, hook, entry,
                      init, q, seen, rank')
    ensures p == q + 1 ==> forall s :: Edge(rules, q, s) ==> s in rank'
    ensures p != q + 1 ==> Edge(rules, q, q + 1) && SuccessorsExplored(rules, rank', q, q + 1)
  {
    hide Marked, Threaded, SearchPath, SeenReachable, Bit, FlipBit, Hop, IsPath, Reachable, Followable;
    PathPop(rules, entry, init, q, p);
    OnPathStays(rules, entry, init, q);
    UnmarkStep(words, base, hook, init + [q], p, seen);
    PopThread(links, init + [q], p);
    JumpsFirstPrefix(rules, init + [q], p, rank, rank');
    assert q in init + [q] by { assert (init + [q])[|init|] == q; }
  }

  /** Leaving the completely searched entry ends the search. */
  lemma PopEntry(rules: seq<Rule>, words: seq<nat>, links: seq<nat>, base: seq<nat>, hook: nat, entry: nat,
                 p: nat, seen: set<nat>, rank: map<nat, nat>)
    requires Searching(rules, words, links, base, hook, entry, [], p, seen, rank)
    ensures p == entry && links[p] == p
    ensures Threaded(links[p := 0], [])
    ensures Marked(words[p := FlipBit(words[p], ON_PATH)], base, hook, [], seen)
  {
    assert ([] + [p])[0] == p;
    UnmarkStep(words, base, hook, [], p, seen);
    PopThread(links, [], p);
  }

  /** The state of the search as it arrives at p: the rules of `path` are on the path, p is
      not yet marked, but its counter already holds the way back. If p is on the path, that
      overwrote a back pointer, and the search is about to fail. */
  ghost predicate Arriving(rules: seq<Rule>, words: seq<nat>, links: seq<nat>, base: seq<nat>, hook: nat,
                           entry: nat, path: seq<nat>, p: nat, seen: set<nat>, rank: map<nat, nat>) {
    && |words| == |links| == |rules| && p < |rules|
    && IsPath(rules, path + [p]) && (path + [p])[0] == entry && Distinct(path)
    && (p !in path ==> Threaded(links, path + [p]))
    && Marked(words, base, hook, path, seen)
    && JumpsFirst(rules, path + [p], rank)
    && Explored(rules, rank) && rank.Keys <= seen
    && (forall q :: q in path ==> q in seen)
    && SeenReachable(rules, entry, seen)
  }

  /** Weight of the path to the rule being arrived at, for paths that can occur. */
  ghost function PathMeasure(path: seq<nat>, n: nat): nat {
    if |path| <= n + 1 then Weight(path, n) else 0
  }

  lemma StartSearch(rules: seq<Rule>, base: seq<nat>, hook: nat, entry: nat, links: seq<nat>)
    requires |base| == |links| == |rules| && entry < |rules| && links[entry] == entry
    requires forall p :: 0 <= p < |base| ==> !Bit(base[p], ON_PATH)
    requires forall p :: 0 <= p < |links| && p != entry ==> links[p] == 0
    ensures Arriving(rules, base, links, base, hook, entry, [], entry, {}, map[])
  {
    assert [] + [entry] == [entry];
  }

  /** Meeting a rule that is on the path proves a cycle. */
  lemma Loop(rules: seq<Rule>, words: seq<nat>, links: seq<nat>, base: seq<nat>, hook: nat, entry: nat,
             path: seq<nat>, p: nat, seen: set<nat>, rank: map<nat, nat>)
    requires Arriving(rules, words, links, base, hook, entry, path, p, seen, rank)
    requires p < |words| && Bit(words[p], ON_PATH)
    ensures ReachesCycle(rules, entry)
  {
    var longer := path + [p];
    assert p in path;
    PathPrefix(rules, longer, |path|);
    assert longer[..|path|] == path && longer[0] == path[0];
    assert Hop(rules, longer, |path| - 1);
    BackEdgeIsCycle(rules, entry, path, p);
  }

  lemma Arrive(rules: seq<Rule>, words: seq<nat>, links: seq<nat>, base: seq<nat>, hook: nat, entry: nat,
               path: seq<nat>, p: nat, seen: set<nat>, rank: map<nat, nat>)
    requires Arriving(rules, words, links, base, hook, entry, path, p, seen, rank)
    requires hook < NF_IP_NUMHOOKS && p < |words| && !Bit(words[p], ON_PATH) && Followable(rules, entry)
    ensures StaysInTable(rules, p)
    ensures Searching(rules, words[p := SetBit(SetBit(words[p], hook), ON_PATH)], links, base, hook, entry,
                      path, p, seen + {p}, rank)
    ensures |path| < |rules| && Explored(rules, rank) && rank.Keys <= seen + {p}
    ensures forall q :: q in path ==> q in seen + {p}
    ensures SeenReachable(rules, entry, seen + {p})
  {
    hide Threaded, JumpsFirst, Explored, SetBit, FlipBit, Hop, StaysInTable;
    MarkStep(words, base, hook, path, seen, p);
    var longer := path + [p];
    assert p !in path;
    forall i | 0 <= i < |longer| ensures longer[i] < |rules| {
    }
    DistinctBounded(longer, |rules|);
    PathIsReachable(rules, longer);
    assert longer[|longer| - 1] == p;
  }

  lemma TerminalHasNoEdges(rules: seq<Rule>, p: nat)
    requires p < |rules| && Terminal(rules[p])
    ensures forall s :: !Edge(rules, p, s)
  {
  }

  lemma DepartEdge(rules: seq<Rule>, p: nat, q: nat)
    requires StaysInTable(rules, p) && !Terminal(rules[p])
    requires q == if IsJump(rules[p]) then rules[p].target.verdict else p + 1
    ensures q < |rules| && Edge(rules, p, q)
    ensures q == p + 1 ==> forall rank: map<nat, nat> :: SuccessorsExplored(rules, rank, p, q)
  {
  }

  lemma Depart(rules: seq<Rule>, words: seq<nat>, links: seq<nat>, base: seq<nat>, hook: nat, entry: nat,
               path: seq<nat>, p: nat, q: nat, seen: set<nat>, rank: map<nat, nat>)
    requires Searching(rules, words, links, base, hook, entry, path, p, seen, rank)
    requires Edge(rules, p, q) && q < |links|
    requires q == p + 1 ==> SuccessorsExplored(rules, rank, p, q)
    requires forall x :: x in path + [p] ==> x in seen
    ensures Arriving(rules, words, links[q := p], base, hook, entry, path + [p], q, seen, rank)
    ensures |path + [p]| <= |rules|
  {
    var longer := path + [p];
    forall i | 0 <= i < |longer| ensures longer[i] < |rules| {
    }
    DistinctBounded(longer, |rules|);
    PathExtend(rules, longer, q);
    JumpsFirstExtend(rules, longer, p, q, rank);
    if q !in longer {
      PushThread(links, longer, p, q);
    }
    assert (longer + [q])[0] == longer[0];
  }

  lemma DeepenGains(path: seq<nat>, q: nat, n: nat)
    requires 1 <= |path| <= n
    ensures PathMeasure(path, n) < PathMeasure(path + [q], n) < Power3(n)
  {
    PushGains(path, q, n);
    WeightBounded(path + [q], n);
  }

  lemma MoveGains(before: seq<nat>, after: seq<nat>, n: nat)
    requires 1 <= |before| <= n + 1 && 1 <= |after| <= n + 1
    requires Ceiling(before, n) <= Weight(after, n)
    ensures PathMeasure(before, n) < PathMeasure(after, n) < Power3(n)
  {
    WeightBounded(after, n);
  }

  /** The search of a hook has succeeded. */
  ghost predicate Finished(rules: seq<Rule>, words: seq<nat>, links: seq<nat>, base: seq<nat>, hook: nat, entry: nat)
    requires |words| == |links| == |rules| == |base|
  {
    && !ReachesCycle(rules, entry)
    && (forall p :: 0 <= p < |rules| ==> !Bit(words[p], ON_PATH) && links[p] == 0)
    && forall p, g :: 0 <= p < |rules| && 0 <= g < NF_IP_NUMHOOKS ==>
         Bit(words[p], g) == (Bit(base[p], g) || (g == hook && Reachable(rules, entry, p)))
  }

  /** When the entry has been left, exactly the reachable rules carry the hook's bit. */
  lemma Finish(rules: seq<Rule>, words: seq<nat>, links: seq<nat>, base: seq<nat>, hook: nat, entry: nat,
               seen: set<nat>, rank: map<nat, nat>)
    requires |words| == |links| == |rules| == |base|
    requires Threaded(links, []) && Marked(words, base, hook, [], seen)
    requires Explored(rules, rank) && rank.Keys <= seen && entry in rank && SeenReachable(rules, entry, seen)
    ensures Finished(rules, words, links, base, hook, entry)
  {
    ExploredIsAcyclic(rules, rank, entry);
  }

  // ----- The search -----

  /** One copy of a table's entries: immutable rules and their mutable words. */
  class Entries {
    const rules: seq<Rule>
    const comefrom: array<nat>
    const pcnt: array<nat>
    const bcnt: array<nat>

    ghost predicate Valid() {
      && comefrom.Length == pcnt.Length == bcnt.Length == |rules|
      && comefrom != pcnt && comefrom != bcnt && pcnt != bcnt
    }

    /** Room for one copy, its words holding whatever was there. */
    constructor (rules: seq<Rule>)
      ensures Valid() && this.rules == rules
      ensures fresh(comefrom) && fresh(pcnt) && fresh(bcnt)
    {
      this.rules := rules;
      comefrom := new nat[|rules|];
      pcnt := new nat[|rules|];
      bcnt := new nat[|rules|];
    }

    /** No rule is on the path and no back pointer is stored. */
    ghost predicate Idle()
      reads comefrom, pcnt
    {
      && (forall p :: 0 <= p < comefrom.Length ==> !Bit(comefrom[p], ON_PATH))
      && forall p :: 0 <= p < pcnt.Length ==> pcnt[p] == 0
    }

    /** One turn of the backtracking loop: take rule p off the path, clear its counter, and
        go to the rule it was entered from. */
    method StepBack(hook: nat, entry: nat, p: nat, ghost base: seq<nat>, ghost seen: set<nat>,
                    ghost path: seq<nat>, ghost rank: map<nat, nat>)
      returns (pos: nat, ghost rank': map<nat, nat>)
      requires Valid() && Followable(rules, entry)
      requires Searching(rules, comefrom[..], pcnt[..], base, hook, entry, path, p, seen, rank)
      requires p < |rules| && p in seen && Explored(rules, rank) && rank.Keys <= seen
      requires forall s :: Edge(rules, p, s) ==> s in rank
      modifies comefrom, pcnt
      ensures Explored(rules, rank') && rank'.Keys == rank.Keys + {p}
      ensures pos == p <==> path == []
      ensures path == [] ==>
        && p == entry
        && Threaded(pcnt[..], []) && Marked(comefrom[..], base, hook, [], seen)
      ensures path != [] ==>
        && pos == path[|path| - 1] < |rules|
        && Searching(rules, comefrom[..], pcnt[..], base, hook, entry, path[..|path| - 1], pos, seen, rank')
        && (p == pos + 1 ==> forall s :: Edge(rules, pos, s) ==> s in rank')
        && (p != pos + 1 ==> Edge(rules, pos, pos + 1) && SuccessorsExplored(rules, rank', pos, pos + 1))
    {
      hide Searching, Threaded, Marked, Explored, SuccessorsExplored, Edge, Followable;
      ghost var words, links := comefrom[..], pcnt[..];
      rank' := Complete(rules, rank, p);
      if path == [] {
        PopEntry(rules, words, links, base, hook, entry, p, seen, rank);
      } else {
        assert path == path[..|path| - 1] + [path[|path| - 1]];
        PopStep(rules, words, links, base, hook, entry, path[..|path| - 1], path[|path| - 1], p, seen, rank, rank');
      }
      comefrom[p] := FlipBit(comefrom[p], ON_PATH);
      pos := pcnt[p];
      pcnt[p] := 0;
      assert comefrom[..] == words[p := FlipBit(words[p], ON_PATH)];
      assert pcnt[..] == links[p := 0];
    }

    /** "Return: backtrack through the last big jump." Leaves completely searched rules
        until one was entered otherwise than by falling through from the rule before it;
        the position jumped from is returned. Leaving the entry ends the search. */
    method Backtrack(hook: nat, entry: nat, from: nat, ghost base: seq<nat>, ghost seen: set<nat>,
                     ghost path: seq<nat>, ghost rank: map<nat, nat>)
      returns (finished: bool, pos: nat, ghost path': seq<nat>, ghost rank': map<nat, nat>)
      requires Valid() && Followable(rules, entry)
      requires Searching(rules, comefrom[..], pcnt[..], base, hook, entry, path, from, seen, rank)
      requires |path| < |rules| && from < |rules| && from in seen && Explored(rules, rank) && rank.Keys <= seen
      requires forall s :: Edge(rules, from, s) ==> s in rank
      requires forall q :: q in path ==> q in seen
      modifies comefrom, pcnt
      ensures Explored(rules, rank') && rank'.Keys <= seen
      ensures finished ==>
        && Threaded(pcnt[..], []) && Marked(comefrom[..], base, hook, [], seen)
        && entry in rank'
      ensures !finished ==>
        && Searching(rules, comefrom[..], pcnt[..], base, hook, entry, path', pos, seen, rank')
        && |path'| < |path|
        && (forall q :: q in path' + [pos] ==> q in seen)
        && Edge(rules, pos, pos + 1) && SuccessorsExplored(rules, rank', pos, pos + 1)
        && Ceiling(path + [from], |rules|) <= Weight(path' + [pos] + [pos + 1], |rules|)
    {
      hide Searching, Threaded, Marked, Explored, SuccessorsExplored, Edge, Followable, Ceiling, Weight;
      pos := from;
      path', rank' := path, rank;
      while true
        invariant Searching(rules, comefrom[..], pcnt[..], base, hook, entry, path', pos, seen, rank')
        invariant |path'| <= |path| && pos < |rules| && pos in seen && Explored(rules, rank') && rank'.Keys <= seen
        invariant forall q :: q in path' ==> q in seen
        invariant forall s :: Edge(rules, pos, s) ==> s in rank'
        invariant Ceiling(path + [from], |rules|) <= Ceiling(path' + [pos], |rules|)
        decreases |path'|
      {
        var oldpos := pos;
        ghost var longer := path' + [oldpos];
        pos, rank' := StepBack(hook, entry, oldpos, base, seen, path', rank');
        if pos == oldpos {
          return true, pos, path', rank';
        }
        assert longer[..|longer| - 1] == path' == path'[..|path'| - 1] + [pos];
        path' := path'[..|path'| - 1];
        assert longer == path' + [pos] + [oldpos];
        if oldpos != pos + 1 {
          MoveAlongGains(path' + [pos], pos, oldpos, |rules|);
          return false, pos, path', rank';
        }
        PopKeepsCeiling(longer, |rules|);
      }
    }

    /** One round of the search at a rule that is not on the path: mark it, then go on to
        its jump target or the rule after it, or backtrack and move along one. */
    method Visit(hook: nat, entry: nat, p: nat, ghost base: seq<nat>, ghost path: seq<nat>,
                 ghost seen: set<nat>, ghost rank: map<nat, nat>)
      returns (finished: bool, pos: nat, ghost path': seq<nat>, ghost seen': set<nat>, ghost rank': map<nat, nat>)
      requires Valid() && hook < NF_IP_NUMHOOKS && p < |rules| && |base| == |rules| && !Bit(comefrom[p], ON_PATH)
      requires Followable(rules, entry)
      requires Arriving(rules, comefrom[..], pcnt[..], base, hook, entry, path, p, seen, rank)
      modifies comefrom, pcnt
      ensures finished ==> Finished(rules, comefrom[..], pcnt[..], base, hook, entry)
      ensures !finished ==>
        && pos < |rules|
        && Arriving(rules, comefrom[..], pcnt[..], base, hook, entry, path', pos, seen', rank')
        && PathMeasure(path + [p], |rules|) < PathMeasure(path' + [pos], |rules|) < Power3(|rules|)
    {
      hide Arriving, Searching, Threaded, Marked, Explored, SuccessorsExplored, Edge, Followable, PathMeasure,
           Reachable, Finished, Power3, Bit, SetBit;
      ghost var words := comefrom[..];
      Arrive(rules, words, pcnt[..], base, hook, entry, path, p, seen, rank);
      comefrom[p] := SetBit(SetBit(comefrom[p], hook), ON_PATH);
      assert comefrom[..] == words[p := SetBit(SetBit(words[p], hook), ON_PATH)];
      seen' := seen + {p};
      if Terminal(rules[p]) {
        TerminalHasNoEdges(rules, p);
        finished, pos, path', rank' := Backtrack(hook, entry, p, base, seen', path, rank);
        if finished {
          Finish(rules, comefrom[..], pcnt[..], base, hook, entry, seen', rank');
        } else {
          MoveGains(path + [p], path' + [pos] + [pos + 1], |rules|);
          pos, path' := MoveOn(hook, entry, pos, pos + 1, base, path', seen', rank');
        }
      } else {
        var newpos: nat := if IsJump(rules[p]) then rules[p].target.verdict else p + 1;
        DepartEdge(rules, p, newpos);
        DeepenGains(path + [p], newpos, |rules|);
        pos, path' := MoveOn(hook, entry, p, newpos, base, path, seen', rank);
        finished, rank' := false, rank;
      }
    }

    /** Go from p to q, leaving the way back in q's counter. */
    method MoveOn(hook: nat, entry: nat, p: nat, q: nat, ghost base: seq<nat>, ghost path: seq<nat>,
                  ghost seen: set<nat>, ghost rank: map<nat, nat>)
      returns (pos: nat, ghost path': seq<nat>)
      requires Valid()
      requires Searching(rules, comefrom[..], pcnt[..], base, hook, entry, path, p, seen, rank)
      requires Edge(rules, p, q) && (q == p + 1 ==> SuccessorsExplored(rules, rank, p, q))
      requires forall x :: x in path + [p] ==> x in seen
      modifies pcnt
      ensures pos == q < |rules| && path' == path + [p]
      ensures Arriving(rules, comefrom[..], pcnt[..], base, hook, entry, path', q, seen, rank)
    {
      hide Arriving, Searching, SuccessorsExplored;
      ghost var links: seq<nat> := pcnt[..];
      Depart(rules, comefrom[..], links, base, hook, entry, path, p, q, seen, rank);
      pcnt[q] := p;
      assert pcnt[..] == links[q := p];
      pos, path' := q, path + [p];
    }

    /** The search from one hook's entry point. */
    method MarkHook(hook: nat, entry: nat) returns (ok: bool)
      requires Valid() && Idle() && hook < NF_IP_NUMHOOKS && entry < |rules| && Followable(rules, entry)
      modifies comefrom, pcnt
      ensures ok <==> !ReachesCycle(rules, entry)
      ensures ok ==> Idle()
      ensures ok ==> forall p, g :: 0 <= p < |rules| && 0 <= g < NF_IP_NUMHOOKS ==>
        Bit(comefrom[p], g) == (old(Bit(comefrom[p], g)) || (g == hook && Reachable(rules, entry, p)))
    {
      ghost var base: seq<nat> := comefrom[..];
      ghost var path: seq<nat>, seen: set<nat>, rank: map<nat, nat> := [], {}, map[];
      var pos: nat := entry;
      pcnt[pos] := pos;
      StartSearch(rules, base, hook, entry, pcnt[..]);
      while true
        invariant pos < |rules|
        invariant Arriving(rules, comefrom[..], pcnt[..], base, hook, entry, path, pos, seen, rank)
        decreases Power3(|rules|) - PathMeasure(path + [pos], |rules|)
      {
        hide Arriving, Reachable, Bit, Edge, Followable, PathMeasure;
        if Bit(comefrom[pos], ON_PATH) {
          Loop(rules, comefrom[..], pcnt[..], base, hook, entry, path, pos, seen, rank);
          return false;
        }
        var finished: bool;
        finished, pos, path, seen, rank := Visit(hook, entry, pos, base, path, seen, rank);
        if finished {
          return true;
        }
      }
    }

    /** check_entry_size_and_hooks has cleared counters and comefrom. */
    ghost predicate Cleared()
      reads comefrom, pcnt
    {
      && (forall p :: 0 <= p < comefrom.Length ==> comefrom[p] == 0)
      && forall p :: 0 <= p < pcnt.Length ==> pcnt[p] == 0
    }

    /** Searches from every valid hook in turn. It succeeds exactly when no valid hook can
        reach a cycle, and then every hook bit says whether the rule is reachable from that
        hook, no rule is left marked as on the path and every packet counter is back to 0. */
    method MarkSourceChains(hookEntry: seq<nat>, validHooks: nat) returns (ok: bool)
      requires Valid() && Cleared() && |hookEntry| == NF_IP_NUMHOOKS
      requires forall h :: 0 <= h < NF_IP_NUMHOOKS && Bit(validHooks, h) ==>
        hookEntry[h] < |rules| && Followable(rules, hookEntry[h])
      modifies comefrom, pcnt
      ensures ok <==> forall h :: 0 <= h < NF_IP_NUMHOOKS && Bit(validHooks, h) ==> !ReachesCycle(rules, hookEntry[h])
      ensures ok ==> Idle()
      ensures ok ==> forall p, h :: 0 <= p < |rules| && 0 <= h < NF_IP_NUMHOOKS ==>
        Bit(comefrom[p], h) == (Bit(validHooks, h) && Reachable(rules, hookEntry[h], p))
    {
      ClearedIsIdle();
      for hook := 0 to NF_IP_NUMHOOKS
        invariant Idle()
        invariant forall h :: 0 <= h < hook && Bit(validHooks, h) ==> !ReachesCycle(rules, hookEntry[h])
        invariant forall p, h :: 0 <= p < |rules| && 0 <= h < NF_IP_NUMHOOKS ==>
          Bit(comefrom[p], h) == (h < hook && Bit(validHooks, h) && Reachable(rules, hookEntry[h], p))
      {
        hide ReachesCycle, Reachable, Followable;
        if Bit(validHooks, hook) {
          ok := MarkHook(hook, hookEntry[hook]);
          if !ok {
            return;
          }
        }
      }
      ok := true;
    }

    lemma ClearedIsIdle()
      requires Valid() && Cleared()
      ensures Idle()
      ensures forall p, h :: 0 <= p < |rules| && 0 <= h < NF_IP_NUMHOOKS ==> !Bit(comefrom[p], h)
    {
      forall h: nat ensures !Bit(0, h) {
        ZeroHasNoBits(h);
      }
    }
  }
}
