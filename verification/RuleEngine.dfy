/** ipt_do_table: the rule engine. Its call stack is one back pointer and the comefrom words
    of the rules behind the jumps being followed. On every table that mark_source_chains has
    accepted it terminates and does what the recursive evaluator says. */
module RuleEngine {
  import opened IpMatch
  import opened MarkChains
  import opened Reference
  import opened ReturnPoints
  import opened RuleGraph

  /** Packet and byte counters are 64 bits wide. */
  const COUNTER_MODULUS: nat := 0x1_0000_0000_0000_0000

  /** IPT_MATCH_ITERATE(e, do_match, ...): every match must match, but a failing one is the
      last that is asked, and only those asked can order a drop. */
  method IterateMatches(ms: seq<Match>, pkt: Packet, c: Context) returns (matched: bool, hotdrop: bool)
    ensures matched <==>
      forall k :: 0 <= k < |ms| ==> ms[k].fn(pkt, c.indev, c.outdev, c.offset).matched
    ensures hotdrop <==>
      exists k :: 0 <= k < |ms| && ms[k].fn(pkt, c.indev, c.outdev, c.offset).hotdrop
        && (forall j :: 0 <= j < k ==> ms[j].fn(pkt, c.indev, c.outdev, c.offset).matched)
  {
    hotdrop := false;
    var i := 0;
    while i < |ms|
      invariant i <= |ms|
      invariant forall k :: 0 <= k < i ==> ms[k].fn(pkt, c.indev, c.outdev, c.offset).matched
      invariant hotdrop <==> exists k :: 0 <= k < i && ms[k].fn(pkt, c.indev, c.outdev, c.offset).hotdrop
    {
      var m := ms[i].fn(pkt, c.indev, c.outdev, c.offset);
      hotdrop := hotdrop || m.hotdrop;
      if !m.matched {
        return false, hotdrop;
      }
      i := i + 1;
    }
    matched := true;
  }

  /** Does the rule match? Its matches are asked only if the addresses fit. */
  method Consult(r: Rule, pkt: Packet, c: Context) returns (matched: bool, hotdrop: bool)
    ensures MatchResult(matched, hotdrop) == MatchRule(r, pkt, c)
    ensures matched <==>
      && Matches(pkt, c.indev, c.outdev, r.ip, c.offset)
      && forall k :: 0 <= k < |r.matches| ==> r.matches[k].fn(pkt, c.indev, c.outdev, c.offset).matched
    ensures hotdrop ==> Matches(pkt, c.indev, c.outdev, r.ip, c.offset)
  {
    hotdrop := false;
    matched := IpPacketMatch(pkt, c.indev, c.outdev, r.ip, c.offset);
    if matched {
      matched, hotdrop := IterateMatches(r.matches, pkt, c);
    }
  }

  /** The counters are what they were when the traversal started, plus the hits. */
  ghost predicate Tallied(pcnt: seq<nat>, bcnt: seq<nat>, pcnt0: seq<nat>, bcnt0: seq<nat>, hits: seq<Hit>) {
    && |pcnt| == |bcnt| == |pcnt0| == |bcnt0|
    && forall p :: 0 <= p < |pcnt| ==>
         && pcnt[p] == (pcnt0[p] + PacketsOf(hits, p)) % COUNTER_MODULUS
         && bcnt[p] == (bcnt0[p] + BytesOf(hits, p)) % COUNTER_MODULUS
  }

  lemma TallyOne(pcnt: seq<nat>, bcnt: seq<nat>, pcnt0: seq<nat>, bcnt0: seq<nat>, hits: seq<Hit>, p: nat, bytes: nat)
    requires Tallied(pcnt, bcnt, pcnt0, bcnt0, hits) && p < |pcnt|
    ensures Tallied(pcnt[p := (pcnt[p] + 1) % COUNTER_MODULUS], bcnt[p := (bcnt[p] + bytes) % COUNTER_MODULUS],
                    pcnt0, bcnt0, hits + [Hit(p, bytes)])
  {
    hide PacketsOf, BytesOf;
    var h := Hit(p, bytes);
    var pcnt' := pcnt[p := (pcnt[p] + 1) % COUNTER_MODULUS];
    var bcnt' := bcnt[p := (bcnt[p] + bytes) % COUNTER_MODULUS];
    forall q | 0 <= q < |pcnt|
      ensures pcnt'[q] == (pcnt0[q] + PacketsOf(hits + [h], q)) % COUNTER_MODULUS
      ensures bcnt'[q] == (bcnt0[q] + BytesOf(hits + [h], q)) % COUNTER_MODULUS
    {
      CountOneMore(hits, h, q);
      if q == p {
        CountedOn(pcnt0[q] + PacketsOf(hits, q), 1);
        CountedOn(bcnt0[q] + BytesOf(hits, q), bytes);
      }
    }
  }

  /** Counters wrap around, so it does not matter when the remainder is taken. */
  lemma CountedOn(sum: nat, more: nat)
    ensures (sum % COUNTER_MODULUS + more) % COUNTER_MODULUS == (sum + more) % COUNTER_MODULUS
  {
  }

  ghost predicate CountersInRange(t: Entries)
    reads t.pcnt, t.bcnt
  {
    && (forall p :: 0 <= p < t.pcnt.Length ==> t.pcnt[p] < COUNTER_MODULUS)
    && forall p :: 0 <= p < t.bcnt.Length ==> t.bcnt[p] < COUNTER_MODULUS
  }

  lemma NothingTallied(t: Entries)
    requires t.Valid() && CountersInRange(t)
    ensures Tallied(t.pcnt[..], t.bcnt[..], t.pcnt[..], t.bcnt[..], [])
  {
  }

  /** ADD_COUNTER(e->counters, ntohs(ip->tot_len), 1) */
  method AddCounter(t: Entries, p: nat, bytes: nat, ghost pcnt0: seq<nat>, ghost bcnt0: seq<nat>, ghost hits: seq<Hit>)
    requires t.Valid() && p < |t.rules|
    requires Tallied(t.pcnt[..], t.bcnt[..], pcnt0, bcnt0, hits)
    modifies t.pcnt, t.bcnt
    ensures Tallied(t.pcnt[..], t.bcnt[..], pcnt0, bcnt0, hits + [Hit(p, bytes)])
  {
    ghost var pcnt1, bcnt1 := t.pcnt[..], t.bcnt[..];
    TallyOne(pcnt1, bcnt1, pcnt0, bcnt0, hits, p, bytes);
    t.bcnt[p] := (t.bcnt[p] + bytes) % COUNTER_MODULUS;
    t.pcnt[p] := (t.pcnt[p] + 1) % COUNTER_MODULUS;
    assert t.pcnt[..] == pcnt1[p := (pcnt1[p] + 1) % COUNTER_MODULUS];
    assert t.bcnt[..] == bcnt1[p := (bcnt1[p] + bytes) % COUNTER_MODULUS];
  }

  /** The traversal is at rule e with the stack threaded; finishing it gives `goal`. */
  ghost predicate Traversing(rules: seq<Rule>, entry: nat, policy: nat, c: Context, goal: Outcome,
                             e: nat, back: nat, stack: seq<nat>, slots: seq<nat>, w: World) {
    && Live(rules, entry, policy, e, back, stack, slots)
    && Resume(rules, stack, Eval(rules, e, w, c), c) == goal
  }

  /** Steps the engine may still take. */
  ghost function Remaining(rules: seq<Rule>, e: nat, stack: seq<nat>): nat {
    if Sound(rules, e) && Callable(rules, stack)
    then StepBound(rules, e) + StackBound(rules, stack)
    else 0
  }

  lemma StartTraversal(rules: seq<Rule>, entry: nat, policy: nat, c: Context, slots: seq<nat>, w: World)
    requires Sound(rules, entry) && |slots| == |rules| && Policy(rules, policy)
    ensures Traversing(rules, entry, policy, c, RunChain(rules, entry, policy, w, c), entry, policy, [policy], slots, w)
  {
    LiveStart(rules, entry, policy, slots);
    var o := Eval(rules, entry, w, c);
    PolicyDecides(rules, policy, o.w, c);
    assert [policy][1..] == [];
  }

  /** Going on to the rule behind e. */
  lemma Forward(rules: seq<Rule>, entry: nat, policy: nat, c: Context, goal: Outcome, e: nat, back: nat,
                stack: seq<nat>, slots: seq<nat>, w: World, w': World)
    requires Policy(rules, policy)
    requires Traversing(rules, entry, policy, c, goal, e, back, stack, slots, w)
    requires !Terminal(rules[e])
    ensures Sound(rules, e + 1)
    ensures Eval(rules, e, w, c) == Eval(rules, e + 1, w', c) ==>
      Traversing(rules, entry, policy, c, goal, e + 1, back, stack, slots, w')
    ensures Remaining(rules, e + 1, stack) < Remaining(rules, e, stack)
  {
    hide ReachesCycle, Followable, Reachable, Precedes, Edge, Policy, Terminal, Pending, Eval, Resume, StepBound, StackBound;
    StepForward(rules, e);
    LiveMove(rules, entry, policy, e, e + 1, back, stack, slots);
    BoundDrops(rules, e);
  }

  lemma BoundDrops(rules: seq<Rule>, p: nat)
    requires Sound(rules, p) && Sound(rules, p + 1)
    requires !Terminal(rules[p])
    ensures StepBound(rules, p + 1) < StepBound(rules, p)
    ensures IsJump(rules[p]) && rules[p].target.verdict != p + 1 ==>
      var v := rules[p].target.verdict;
      Sound(rules, v) &&
      StepBound(rules, v) + StepBound(rules, p + 1) < StepBound(rules, p)
  {
    hide ReachesCycle, Followable, Terminal;
    if IsJump(rules[p]) {
      StepJump(rules, p);
    }
  }

  /** Taking a jump that pushes a return point. */
  lemma Jump(rules: seq<Rule>, entry: nat, policy: nat, c: Context, goal: Outcome, e: nat, v: nat, back: nat,
             stack: seq<nat>, slots: seq<nat>, w: World, w': World)
    requires Policy(rules, policy)
    requires Traversing(rules, entry, policy, c, goal, e, back, stack, slots, w)
    requires IsJump(rules[e]) && v == rules[e].target.verdict != e + 1
    ensures Sound(rules, v) && Sound(rules, e + 1)
    ensures
      var callee := Eval(rules, v, w', c);
      Eval(rules, e, w, c) == (if callee.Final? then callee else Eval(rules, e + 1, callee.w, c)) ==>
        Traversing(rules, entry, policy, c, goal, v, e + 1, [e + 1] + stack, slots[e + 1 := back], w')
    ensures Remaining(rules, v, [e + 1] + stack) < Remaining(rules, e, stack)
  {
    hide ReachesCycle, Followable, Reachable, Precedes, Edge, Policy, Terminal, Pending, Eval, Resume, StepBound, StackBound;
    AtJump(rules, e);
    StepForward(rules, e);
    StepJump(rules, e);
    BoundDrops(rules, e);
    LiveJump(rules, entry, policy, e, v, back, stack, slots);
    ResumePush(rules, e + 1, stack, Eval(rules, v, w', c), c);
  }

  /** Returning to the innermost return point. */
  lemma Return(rules: seq<Rule>, entry: nat, policy: nat, c: Context, goal: Outcome, e: nat, back: nat,
               stack: seq<nat>, slots: seq<nat>, w: World, w': World)
    requires Policy(rules, policy)
    requires Traversing(rules, entry, policy, c, goal, e, back, stack, slots, w)
    requires Eval(rules, e, w, c) == Returned(w')
    ensures stack != [] && back < |rules|
    ensures Traversing(rules, entry, policy, c, goal, back, slots[back], stack[1..], slots, w')
    ensures Remaining(rules, back, stack[1..]) < Remaining(rules, e, stack)
  {
    PolicyDecides(rules, policy, w, c);
    LiveReturn(rules, entry, policy, e, back, stack, slots);
    BoundPositive(rules, e);
  }

  lemma BoundPositive(rules: seq<Rule>, p: nat)
    requires Sound(rules, p)
    ensures StepBound(rules, p) >= 1
  {
  }

  /** A decision is not changed by the chains still pending. */
  lemma Decided(rules: seq<Rule>, entry: nat, policy: nat, c: Context, goal: Outcome, e: nat, back: nat,
                stack: seq<nat>, slots: seq<nat>, w: World)
    requires Traversing(rules, entry, policy, c, goal, e, back, stack, slots, w)
    requires Eval(rules, e, w, c).Final?
    ensures goal == Eval(rules, e, w, c)
  {
  }

  /** A rule that says RETURN is not the policy, so something is pending. */
  lemma CanReturn(rules: seq<Rule>, entry: nat, policy: nat, c: Context, goal: Outcome, e: nat, back: nat,
                  stack: seq<nat>, slots: seq<nat>, w: World)
    requires Policy(rules, policy)
    requires Traversing(rules, entry, policy, c, goal, e, back, stack, slots, w)
    requires rules[e].target == Standard(IPT_RETURN)
    ensures stack != [] && back < |rules|
  {
  }

  lemma AtRule(rules: seq<Rule>, entry: nat, policy: nat, c: Context, goal: Outcome, e: nat, back: nat,
               stack: seq<nat>, slots: seq<nat>, w: World)
    requires Traversing(rules, entry, policy, c, goal, e, back, stack, slots, w)
    ensures Sound(rules, e)
  {
  }

  /** What one rule does to the traversal: it is decided, or goes on nearer to its end. */
  ghost predicate Advanced(rules: seq<Rule>, entry: nat, policy: nat, c: Context, goal: Outcome,
                           e: nat, stack: seq<nat>, decided: bool, verdict: int,
                           e': nat, back': nat, stack': seq<nat>, slots': seq<nat>, w': World) {
    if decided then goal == Final(verdict, w')
    else
      && Traversing(rules, entry, policy, c, goal, e', back', stack', slots', w')
      && Remaining(rules, e', stack') < Remaining(rules, e, stack)
  }

  /** The part of the loop body for a matching rule with a standard target. */
  method StandardTarget(t: Entries, c: Context, v: int, hotdrop: bool, e: nat, back: nat,
                        ghost entry: nat, ghost policy: nat, ghost goal: Outcome, ghost stack: seq<nat>, ghost w: World)
    returns (done: bool, verdict: int, e': nat, back': nat, ghost stack': seq<nat>)
    requires t.Valid() && Policy(t.rules, policy)
    requires Traversing(t.rules, entry, policy, c, goal, e, back, stack, t.comefrom[..], w)
    requires e < |t.rules| && t.rules[e].target == Standard(v)
    requires MatchRule(t.rules[e], Noticed(w, t.rules[e]).pkt, c) == MatchResult(true, hotdrop)
    modifies t.comefrom
    ensures Advanced(t.rules, entry, policy, c, goal, e, stack, done || hotdrop, HotVerdict(hotdrop, verdict),
                     e', back', stack', t.comefrom[..], Counted(Noticed(w, t.rules[e]), e))
  {
    hide Traversing, Remaining, Sound, Policy, Terminal, MatchRule;
    ghost var rules: seq<Rule>, slots: seq<nat>, w' := t.rules, t.comefrom[..], Counted(Noticed(w, t.rules[e]), e);
    AtRule(rules, entry, policy, c, goal, e, back, stack, slots, w);
    EvalStandard(rules, e, w, c, v);
    done, verdict, stack' := false, NF_DROP, stack;
    e', back' := e, back;
    if v < 0 {
      if v != IPT_RETURN {
        verdict := -v - 1;
        Decided(rules, entry, policy, c, goal, e, back, stack, slots, w);
        done := true;
      } else {
        CanReturn(rules, entry, policy, c, goal, e, back, stack, slots, w);
        e' := back;
        back' := t.comefrom[back];
        if hotdrop {
          Decided(rules, entry, policy, c, goal, e, back, stack, slots, w);
        } else {
          Return(rules, entry, policy, c, goal, e, back, stack, slots, w, w');
          stack' := stack[1..];
        }
      }
    } else {
      if hotdrop {
        Decided(rules, entry, policy, c, goal, e, back, stack, slots, w);
      } else if v == e + 1 {
        AtJump(rules, e);
        Forward(rules, entry, policy, c, goal, e, back, stack, slots, w, w');
      } else {
        Jump(rules, entry, policy, c, goal, e, v, back, stack, slots, w, w');
        stack' := [e + 1] + stack;
      }
      if v != e + 1 {
        t.comefrom[e + 1] := back;
        assert t.comefrom[..] == slots[e + 1 := back];
        back' := e + 1;
      }
      e' := v;
    }
  }

  lemma AtJump(rules: seq<Rule>, e: nat)
    requires e < |rules| && IsJump(rules[e])
    ensures !Terminal(rules[e])
  {
  }

  /** The loop body. */
  method ApplyRule(t: Entries, c: Context, e: nat, back: nat, skb: Packet,
                   ghost entry: nat, ghost policy: nat, ghost goal: Outcome, ghost stack: seq<nat>, ghost w: World,
                   ghost pcnt0: seq<nat>, ghost bcnt0: seq<nat>)
    returns (done: bool, hotdrop: bool, verdict: int, pkt: Packet, e': nat, back': nat,
             ghost stack': seq<nat>, ghost w': World)
    requires t.Valid() && Policy(t.rules, policy)
    requires Traversing(t.rules, entry, policy, c, goal, e, back, stack, t.comefrom[..], w)
    requires w.pkt == skb
    requires Tallied(t.pcnt[..], t.bcnt[..], pcnt0, bcnt0, w.hits)
    modifies t.comefrom, t.pcnt, t.bcnt
    ensures Advanced(t.rules, entry, policy, c, goal, e, stack, done || hotdrop, HotVerdict(hotdrop, verdict),
                     e', back', stack', t.comefrom[..], w')
    ensures w'.pkt == pkt
    ensures Tallied(t.pcnt[..], t.bcnt[..], pcnt0, bcnt0, w'.hits)
  {
    hide Advanced, Traversing, Remaining, Sound, Policy, Terminal, MatchRule, Tallied, Eval;
    ghost var rules: seq<Rule>, slots: seq<nat> := t.rules, t.comefrom[..];
    AtRule(rules, entry, policy, c, goal, e, back, stack, slots, w);
    var r := t.rules[e];
    done, hotdrop, verdict, e', back', stack' := false, false, NF_DROP, e, back, stack;
    pkt := skb.(nfcache := skb.nfcache | r.nfcache);
    w' := Noticed(w, r);
    var matched;
    matched, hotdrop := Consult(r, pkt, c);
    if !matched {
      EvalUnmatched(rules, e, w, c);
      Unmatched(rules, entry, policy, c, goal, e, back, stack, slots, w, hotdrop);
      e' := e + 1;
      return;
    }
    AddCounter(t, e, pkt.totLen, pcnt0, bcnt0, w'.hits);
    done, verdict, pkt, e', back', stack', w' :=
      ApplyTarget(t, c, hotdrop, e, back, pkt, entry, policy, goal, stack, w);
  }

  /** The part of the loop body for a matching rule, once it is counted */
  method ApplyTarget(t: Entries, c: Context, hotdrop: bool, e: nat, back: nat, skb: Packet,
                     ghost entry: nat, ghost policy: nat, ghost goal: Outcome, ghost stack: seq<nat>, ghost w: World)
    returns (done: bool, verdict: int, pkt: Packet, e': nat, back': nat, ghost stack': seq<nat>, ghost w': World)
    requires t.Valid() && Policy(t.rules, policy) && e < |t.rules|
    requires Traversing(t.rules, entry, policy, c, goal, e, back, stack, t.comefrom[..], w)
    requires MatchRule(t.rules[e], Noticed(w, t.rules[e]).pkt, c) == MatchResult(true, hotdrop)
    requires skb == Noticed(w, t.rules[e]).pkt
    modifies t.comefrom
    ensures Advanced(t.rules, entry, policy, c, goal, e, stack, done || hotdrop, HotVerdict(hotdrop, verdict),
                     e', back', stack', t.comefrom[..], w')
    ensures w'.pkt == pkt && w'.hits == Counted(Noticed(w, t.rules[e]), e).hits
  {
    hide Traversing, Remaining, Sound, Policy, Terminal, MatchRule, Noticed;
    w' := Counted(Noticed(w, t.rules[e]), e);
    done, verdict, pkt, e', back', stack' := false, NF_DROP, skb, e, back, stack;
    match t.rules[e].target {
      case Standard(v) =>
        done, verdict, e', back', stack' :=
          StandardTarget(t, c, v, hotdrop, e, back, entry, policy, goal, stack, w);
      case Extension(_, fn) =>
        var (v, mangled) := fn(pkt, c.hook, c.indev, c.outdev);
        Extended(t.rules, entry, policy, c, goal, e, back, stack, t.comefrom[..], w, v, mangled);
        pkt, verdict := mangled, v;
        w' := w'.(pkt := mangled);
        done := verdict != IPT_CONTINUE;
        if !done {
          e' := e + 1;
        }
    }
  }

  lemma Unmatched(rules: seq<Rule>, entry: nat, policy: nat, c: Context, goal: Outcome, e: nat, back: nat,
                  stack: seq<nat>, slots: seq<nat>, w: World, hot: bool)
    requires Policy(rules, policy) && e < |rules|
    requires Traversing(rules, entry, policy, c, goal, e, back, stack, slots, w)
    requires MatchRule(rules[e], Noticed(w, rules[e]).pkt, c) == MatchResult(false, hot)
    ensures Advanced(rules, entry, policy, c, goal, e, stack, hot, NF_DROP,
                     e + 1, back, stack, slots, Noticed(w, rules[e]))
  {
    hide Traversing, Remaining, Policy, Terminal, MatchRule, Sound;
    AtRule(rules, entry, policy, c, goal, e, back, stack, slots, w);
    EvalUnmatched(rules, e, w, c);
    if hot {
      Decided(rules, entry, policy, c, goal, e, back, stack, slots, w);
    } else {
      Forward(rules, entry, policy, c, goal, e, back, stack, slots, w, Noticed(w, rules[e]));
    }
  }

  lemma Extended(rules: seq<Rule>, entry: nat, policy: nat, c: Context, goal: Outcome, e: nat, back: nat,
                 stack: seq<nat>, slots: seq<nat>, w: World, v: int, pkt: Packet)
    requires Policy(rules, policy) && e < |rules|
    requires Traversing(rules, entry, policy, c, goal, e, back, stack, slots, w)
    requires MatchRule(rules[e], Noticed(w, rules[e]).pkt, c).matched && rules[e].target.Extension?
    requires (v, pkt) == rules[e].target.fn(Noticed(w, rules[e]).pkt, c.hook, c.indev, c.outdev)
    ensures
      var hot := MatchRule(rules[e], Noticed(w, rules[e]).pkt, c).hotdrop;
      var after := Counted(Noticed(w, rules[e]), e).(pkt := pkt);
      Advanced(rules, entry, policy, c, goal, e, stack, v != IPT_CONTINUE || hot, HotVerdict(hot, v),
               e + 1, back, stack, slots, after)
  {
    hide Traversing, Remaining, Policy, Terminal, MatchRule, Sound;
    AtRule(rules, entry, policy, c, goal, e, back, stack, slots, w);
    EvalExtension(rules, e, w, c, v, pkt);
    if v != IPT_CONTINUE || MatchRule(rules[e], Noticed(w, rules[e]).pkt, c).hotdrop {
      Decided(rules, entry, policy, c, goal, e, back, stack, slots, w);
    } else {
      Forward(rules, entry, policy, c, goal, e, back, stack, slots, w, Counted(Noticed(w, rules[e]), e).(pkt := pkt));
    }
  }

  /** ipt_do_table. Whatever the comefrom words held before, the verdict, the packet and the
      counters are those of the recursive evaluator. */
  method DoTable(t: Entries, hook: nat, indev: Iface, outdev: Iface, skb: Packet, hookEntry: nat, underflow: nat)
    returns (verdict: int, pkt: Packet, ghost hits: seq<Hit>)
    requires t.Valid() && CountersInRange(t)
    requires Sound(t.rules, hookEntry) && Policy(t.rules, underflow)
    modifies t.comefrom, t.pcnt, t.bcnt
    ensures RunChain(t.rules, hookEntry, underflow, World(skb, []), Context(hook, indev, outdev, skb.fragOffset))
         == Final(verdict, World(pkt, hits))
    ensures Tallied(t.pcnt[..], t.bcnt[..], old(t.pcnt[..]), old(t.bcnt[..]), hits)
  {
    var c := Context(hook, indev, outdev, skb.fragOffset);
    ghost var w := World(skb, []);
    ghost var goal, stack: seq<nat> := RunChain(t.rules, hookEntry, underflow, w, c), [underflow];
    NothingTallied(t);
    StartTraversal(t.rules, hookEntry, underflow, c, t.comefrom[..], w);
    hide Traversing, Tallied, Remaining, Policy, RunChain;
    pkt := skb;
    var e: nat, back: nat := hookEntry, underflow;
    while true
      invariant Traversing(t.rules, hookEntry, underflow, c, goal, e, back, stack, t.comefrom[..], w)
      invariant w.pkt == pkt
      invariant Tallied(t.pcnt[..], t.bcnt[..], old(t.pcnt[..]), old(t.bcnt[..]), w.hits)
      decreases Remaining(t.rules, e, stack)
    {
      var done: bool, hotdrop: bool;
      done, hotdrop, verdict, pkt, e, back, stack, w := ApplyRule(t, c, e, back, pkt,
        hookEntry, underflow, goal, stack, w, old(t.pcnt[..]), old(t.bcnt[..]));
      if done || hotdrop {
        verdict, hits := HotVerdict(hotdrop, verdict), w.hits;
        return;
      }
    }
  }
}
