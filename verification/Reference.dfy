/** What a rule set means: a recursive evaluator in which a jump evaluates the target chain
    and continues behind the jump when that chain returns. It has no stack and no pointers;
    it is what the pointer-threaded rule engine is compared with. */
module Reference {
  import opened IpMatch
  import opened RuleGraph

  const NF_DROP := 0
  const NF_MAX_VERDICT := 4
  const IPT_RETURN := -NF_MAX_VERDICT - 1
  const IPT_CONTINUE := 0xFFFF_FFFF

  /** One increment of a rule's counters. */
  datatype Hit = Hit(rule: nat, bytes: nat)

  /** The packet as targets have left it, and the counter increments made so far. */
  datatype World = World(pkt: Packet, hits: seq<Hit>)

  /** A chain either decides the packet or returns to its caller. */
  datatype Outcome = Final(verdict: int, w: World) | Returned(w: World)

  /** The parameters of one traversal. The fragment offset is read once, before the first
      rule, and not again when a target has rewritten the packet. */
  datatype Context = Context(hook: nat, indev: Iface, outdev: Iface, offset: nat)

  function HotVerdict(hot: bool, verdict: int): int {
    if hot then NF_DROP else verdict
  }

  /** The addresses fit and every match matches. */
  ghost predicate Fits(r: Rule, pkt: Packet, c: Context) {
    Matches(pkt, c.indev, c.outdev, r.ip, c.offset)
    && forall k :: 0 <= k < |r.matches| ==> r.matches[k].fn(pkt, c.indev, c.outdev, c.offset).matched
  }

  /** The addresses fit and a match that is asked, all before it matching, orders a drop. */
  ghost predicate OrdersDrop(r: Rule, pkt: Packet, c: Context) {
    Matches(pkt, c.indev, c.outdev, r.ip, c.offset)
    && exists k :: 0 <= k < |r.matches| && r.matches[k].fn(pkt, c.indev, c.outdev, c.offset).hotdrop
         && (forall j :: 0 <= j < k ==> r.matches[j].fn(pkt, c.indev, c.outdev, c.offset).matched)
  }

  ghost function MatchRule(r: Rule, pkt: Packet, c: Context): MatchResult {
    MatchResult(Fits(r, pkt, c), OrdersDrop(r, pkt, c))
  }

  function Noticed(w: World, r: Rule): World {
    w.(pkt := w.pkt.(nfcache := w.pkt.nfcache | r.nfcache))
  }

  function Counted(w: World, p: nat): World {
    w.(hits := w.hits + [Hit(p, w.pkt.totLen)])
  }

  lemma TerminalMatches(r: Rule, pkt: Packet, c: Context)
    requires Terminal(r)
    ensures MatchRule(r, pkt, c) == MatchResult(true, false)
  {
    UnconditionalMatchesAll(pkt, c.indev, c.outdev, r.ip, c.offset);
  }

  /** A rule that can be left forwards has a rule behind it, nearer to the end of every path. */
  lemma StepForward(rules: seq<Rule>, p: nat)
    requires Sound(rules, p) && !Terminal(rules[p])
    ensures p + 1 < |rules| && Edge(rules, p, p + 1)
    ensures ReachSet(rules, p + 1) < ReachSet(rules, p) && Sound(rules, p + 1)
  {
    InTable(rules, p);
    SoundStep(rules, p, p + 1);
  }

  lemma StepJump(rules: seq<Rule>, p: nat)
    requires Sound(rules, p) && IsJump(rules[p])
    ensures var v := rules[p].target.verdict;
            v < |rules| && Edge(rules, p, v) && ReachSet(rules, v) < ReachSet(rules, p) && Sound(rules, v)
  {
    InTable(rules, p);
    SoundStep(rules, p, rules[p].target.verdict);
  }

  lemma InTable(rules: seq<Rule>, p: nat)
    requires Sound(rules, p)
    ensures StaysInTable(rules, p)
  {
    ReachableSelf(rules, p);
  }

  /** The outcome of a chain entered at rule p. */
  ghost function Eval(rules: seq<Rule>, p: nat, w: World, c: Context): Outcome
    requires Sound(rules, p)
    decreases ReachSet(rules, p)
  {
    var r := rules[p];
    var seen := Noticed(w, r);
    var m := MatchRule(r, seen.pkt, c);
    if !m.matched then
      if m.hotdrop then Final(NF_DROP, seen)
      else
        TerminalMatchesUnless(r, seen.pkt, c); StepForward(rules, p);
        Eval(rules, p + 1, seen, c)
    else
      var counted := Counted(seen, p);
      match r.target
      case Standard(v) =>
        if v < 0 && v != IPT_RETURN then Final(HotVerdict(m.hotdrop, -v - 1), counted)
        else if m.hotdrop then Final(NF_DROP, counted)
        else if v == IPT_RETURN then Returned(counted)
        else
          StepForward(rules, p); StepJump(rules, p);
          if v == p + 1 then Eval(rules, p + 1, counted, c)
          else
            var callee := Eval(rules, v, counted, c);
            if callee.Final? then callee else Eval(rules, p + 1, callee.w, c)
      case Extension(_, fn) =>
        var (v, pkt) := fn(counted.pkt, c.hook, c.indev, c.outdev);
        var after := counted.(pkt := pkt);
        if v != IPT_CONTINUE then Final(HotVerdict(m.hotdrop, v), after)
        else if m.hotdrop then Final(NF_DROP, after)
        else StepForward(rules, p); Eval(rules, p + 1, after, c)
  }

  lemma TerminalMatchesUnless(r: Rule, pkt: Packet, c: Context)
    requires !MatchRule(r, pkt, c).matched
    ensures !Terminal(r)
  {
    if Terminal(r) {
      TerminalMatches(r, pkt, c);
    }
  }

  /** Unfolding the evaluator at a rule the packet does not match. */
  lemma EvalUnmatched(rules: seq<Rule>, e: nat, w: World, c: Context)
    requires Sound(rules, e)
    requires !MatchRule(rules[e], Noticed(w, rules[e]).pkt, c).matched
    ensures !Terminal(rules[e]) && Sound(rules, e + 1)
    ensures var seen := Noticed(w, rules[e]);
            Eval(rules, e, w, c) ==
              if MatchRule(rules[e], seen.pkt, c).hotdrop then Final(NF_DROP, seen) else Eval(rules, e + 1, seen, c)
  {
    TerminalMatchesUnless(rules[e], Noticed(w, rules[e]).pkt, c);
    StepForward(rules, e);
  }

  /** Unfolding the evaluator at a matching rule with a standard target. */
  lemma EvalStandard(rules: seq<Rule>, e: nat, w: World, c: Context, v: int)
    requires Sound(rules, e)
    requires MatchRule(rules[e], Noticed(w, rules[e]).pkt, c).matched && rules[e].target == Standard(v)
    ensures
      var hot := MatchRule(rules[e], Noticed(w, rules[e]).pkt, c).hotdrop;
      var counted := Counted(Noticed(w, rules[e]), e);
      && (v < 0 && v != IPT_RETURN ==> Eval(rules, e, w, c) == Final(HotVerdict(hot, -v - 1), counted))
      && (v == IPT_RETURN || v >= 0 ==> hot ==> Eval(rules, e, w, c) == Final(NF_DROP, counted))
      && (v == IPT_RETURN ==> !hot ==> Eval(rules, e, w, c) == Returned(counted))
      && (v >= 0 ==>
          && !Terminal(rules[e]) && Sound(rules, v) && Sound(rules, e + 1)
          && var callee := Eval(rules, v, counted, c);
             var whole := if v == e + 1 || callee.Final? then callee else Eval(rules, e + 1, callee.w, c);
             !hot ==> Eval(rules, e, w, c) == whole)
  {
    if v >= 0 {
      StepForward(rules, e);
      StepJump(rules, e);
    }
  }

  /** Unfolding the evaluator at a matching rule whose target is an extension. */
  lemma EvalExtension(rules: seq<Rule>, e: nat, w: World, c: Context, v: int, pkt: Packet)
    requires Sound(rules, e)
    requires MatchRule(rules[e], Noticed(w, rules[e]).pkt, c).matched && rules[e].target.Extension?
    requires (v, pkt) == rules[e].target.fn(Noticed(w, rules[e]).pkt, c.hook, c.indev, c.outdev)
    ensures Sound(rules, e + 1) && !Terminal(rules[e])
    ensures
      var hot := MatchRule(rules[e], Noticed(w, rules[e]).pkt, c).hotdrop;
      var after := Counted(Noticed(w, rules[e]), e).(pkt := pkt);
      Eval(rules, e, w, c) ==
        if v != IPT_CONTINUE then Final(HotVerdict(hot, v), after)
        else if hot then Final(NF_DROP, after) else Eval(rules, e + 1, after, c)
  {
    StepForward(rules, e);
  }

  // ----- The evaluator spelled out -----

  /** A rule that is asked puts its bits into nfcache and changes nothing else. */
  lemma Noticing(w: World, r: Rule)
    ensures var pkt := Noticed(w, r).pkt;
      && pkt.nfcache == w.pkt.nfcache | r.nfcache && pkt.(nfcache := w.pkt.nfcache) == w.pkt
      && Noticed(w, r).hits == w.hits
  {
  }

  /** A rule that fits is counted once, with the packet's length. */
  lemma CountingOnce(w: World, r: Rule, p: nat)
    ensures Counted(Noticed(w, r), p).hits == w.hits + [Hit(p, w.pkt.totLen)]
    ensures Counted(Noticed(w, r), p).pkt == Noticed(w, r).pkt
  {
  }

  /** A rule that does not fit is passed over and not counted, unless a match orders a drop. */
  lemma PassedOver(rules: seq<Rule>, p: nat, w: World, c: Context)
    requires Sound(rules, p) && !Fits(rules[p], Noticed(w, rules[p]).pkt, c)
    ensures Sound(rules, p + 1)
    ensures Eval(rules, p, w, c) ==
      var seen := Noticed(w, rules[p]);
      if OrdersDrop(rules[p], seen.pkt, c) then Final(0, seen) else Eval(rules, p + 1, seen, c)
  {
    hide ReachesCycle, Followable, Fits, OrdersDrop, Eval, Noticed;
    EvalUnmatched(rules, p, w, c);
  }

  /** The standard verdict v of a rule that fits decides as -1 - v, returns if it is -5, or goes
      to rule v; a jump that is more than a step goes on behind the rule when the chain at v
      returns. An ordered drop overrules all of these. */
  lemma VerdictTaken(rules: seq<Rule>, p: nat, w: World, c: Context, v: int)
    requires Sound(rules, p) && rules[p].target == Standard(v) && Fits(rules[p], Noticed(w, rules[p]).pkt, c)
    ensures
      var after := Counted(Noticed(w, rules[p]), p);
      if OrdersDrop(rules[p], after.pkt, c) then Eval(rules, p, w, c) == Final(0, after)
      else if v == -5 then Eval(rules, p, w, c) == Returned(after)
      else if v < 0 then Eval(rules, p, w, c) == Final(-1 - v, after)
      else
        && Sound(rules, v) && Sound(rules, p + 1)
        && var o := Eval(rules, v, after, c);
           Eval(rules, p, w, c) == if v == p + 1 || o.Final? then o else Eval(rules, p + 1, o.w, c)
  {
    hide ReachesCycle, Followable, Fits, OrdersDrop, Eval, Terminal, Noticed;
    EvalStandard(rules, p, w, c, v);
  }

  /** An extension that is reached gets the packet with the hook and the devices and may
      rewrite it; unless it says CONTINUE it decides. */
  lemma ExtensionTaken(rules: seq<Rule>, p: nat, w: World, c: Context)
    requires Sound(rules, p) && rules[p].target.Extension? && Fits(rules[p], Noticed(w, rules[p]).pkt, c)
    ensures Sound(rules, p + 1)
    ensures
      var counted := Counted(Noticed(w, rules[p]), p);
      var (v, pkt) := rules[p].target.fn(counted.pkt, c.hook, c.indev, c.outdev);
      Eval(rules, p, w, c) ==
        if OrdersDrop(rules[p], counted.pkt, c) then Final(0, World(pkt, counted.hits))
        else if v != 0xFFFF_FFFF then Final(v, World(pkt, counted.hits))
        else Eval(rules, p + 1, World(pkt, counted.hits), c)
  {
    hide ReachesCycle, Followable, Fits, OrdersDrop, Eval, Terminal, Noticed;
    var (v, pkt) := rules[p].target.fn(Counted(Noticed(w, rules[p]), p).pkt, c.hook, c.indev, c.outdev);
    EvalExtension(rules, p, w, c, v, pkt);
  }

  /** A chain policy: what a base chain falls back to. */
  ghost predicate Policy(rules: seq<Rule>, u: nat) {
    u < |rules| && Terminal(rules[u]) && rules[u].target.verdict != IPT_RETURN
  }

  lemma PolicyDecides(rules: seq<Rule>, u: nat, w: World, c: Context)
    requires Policy(rules, u)
    ensures Sound(rules, u)
    ensures Eval(rules, u, w, c) == Final(-rules[u].target.verdict - 1, Counted(Noticed(w, rules[u]), u))
  {
    TerminalIsSound(rules, u);
    TerminalMatches(rules[u], Noticed(w, rules[u]).pkt, c);
  }

  /** A base chain: when it returns, its policy decides. */
  ghost function RunChain(rules: seq<Rule>, entry: nat, policy: nat, w: World, c: Context): (o: Outcome)
    requires Sound(rules, entry) && Policy(rules, policy)
    ensures o.Final?
  {
    var o := Eval(rules, entry, w, c);
    PolicyDecides(rules, policy, o.w, c);
    if o.Final? then o else Eval(rules, policy, o.w, c)
  }

  /** A base chain's own decision stands; if it returns, its policy's verdict v decides as
      -1 - v, and the policy rule is counted. */
  lemma PolicyTaken(rules: seq<Rule>, entry: nat, policy: nat, w: World, c: Context)
    requires Sound(rules, entry) && Policy(rules, policy)
    ensures
      var o := Eval(rules, entry, w, c);
      RunChain(rules, entry, policy, w, c) ==
        if o.Final? then o
        else Final(-1 - rules[policy].target.verdict, Counted(Noticed(o.w, rules[policy]), policy))
  {
    hide Eval, Sound, Terminal, Noticed;
    PolicyDecides(rules, policy, Eval(rules, entry, w, c).w, c);
  }

  /** The longest walk the engine can take from p, over all packets. */
  ghost function StepBound(rules: seq<Rule>, p: nat): nat
    requires Sound(rules, p)
    decreases ReachSet(rules, p)
  {
    if Terminal(rules[p]) then 1
    else
      StepForward(rules, p);
      if IsJump(rules[p]) && rules[p].target.verdict != p + 1 then
        StepJump(rules, p);
        1 + StepBound(rules, rules[p].target.verdict) + StepBound(rules, p + 1)
      else 1 + StepBound(rules, p + 1)
  }

  // ----- Counting hits -----

  function PacketsOf(hits: seq<Hit>, p: nat): nat {
    if hits == [] then 0
    else PacketsOf(hits[..|hits| - 1], p) + if hits[|hits| - 1].rule == p then 1 else 0
  }

  function BytesOf(hits: seq<Hit>, p: nat): nat {
    if hits == [] then 0
    else BytesOf(hits[..|hits| - 1], p) + if hits[|hits| - 1].rule == p then hits[|hits| - 1].bytes else 0
  }

  lemma CountOneMore(hits: seq<Hit>, h: Hit, p: nat)
    ensures PacketsOf(hits + [h], p) == PacketsOf(hits, p) + if h.rule == p then 1 else 0
    ensures BytesOf(hits + [h], p) == BytesOf(hits, p) + if h.rule == p then h.bytes else 0
  {
    assert (hits + [h])[..|hits + [h]| - 1] == hits;
  }

  /** A rule's packet count is the number of its hits. */
  lemma {:induction false} PacketsCount(hits: seq<Hit>, p: nat)
    ensures PacketsOf(hits, p) == |set i: nat | i < |hits| && hits[i].rule == p|
  {
    var all := set i: nat | i < |hits| && hits[i].rule == p;
    if hits == [] {
      assert all == {};
    } else {
      var n: nat := |hits| - 1;
      PacketsCount(hits[..n], p);
      var before := set i: nat | i < |hits[..n]| && hits[..n][i].rule == p;
      assert all == if hits[n].rule == p then before + {n} else before;
    }
  }
}
