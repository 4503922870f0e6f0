/** How the rule engine threads its call stack through the comefrom words: each live return
    point is the rule behind a jump, and its comefrom word names the return point below it.
    The thread stays intact because the loop check has excluded cycles. */
module ReturnPoints {
  import opened RuleGraph
  import opened Reference

  ghost predicate Callable(rules: seq<Rule>, stack: seq<nat>) {
    forall i :: 0 <= i < |stack| ==> Sound(rules, stack[i])
  }

  /** What is left to do after outcome o of the current chain: pending return points are
      resumed one after the other until one of them decides. */
  ghost function Resume(rules: seq<Rule>, stack: seq<nat>, o: Outcome, c: Context): Outcome
    requires Callable(rules, stack)
    decreases |stack|
  {
    if o.Final? || stack == [] then o
    else Resume(rules, stack[1..], Eval(rules, stack[0], o.w, c), c)
  }

  /** The step counts of all pending return points. */
  ghost function StackBound(rules: seq<Rule>, stack: seq<nat>): nat
    requires Callable(rules, stack)
    decreases |stack|
  {
    if stack == [] then 0 else StepBound(rules, stack[0]) + StackBound(rules, stack[1..])
  }

  /** return point r belongs to the jump before it, which was taken on the way to e */
  ghost predicate Pending(rules: seq<Rule>, entry: nat, r: nat, e: nat) {
    && 0 < r < |rules|
    && Reachable(rules, entry, r - 1)
    && Precedes(rules, r - 1, e)
  }

  /** Following comefrom from `back` lists exactly the live return points `stack`, innermost
      first, the policy rule last. Once the policy has been resumed the stack is empty. */
  ghost predicate Live(rules: seq<Rule>, entry: nat, policy: nat, e: nat, back: nat, stack: seq<nat>, slots: seq<nat>) {
    && |slots| == |rules|
    && Sound(rules, e)
    && Callable(rules, stack)
    && (stack == [] ==> e == policy)
    && (stack != [] ==> back == stack[0] && stack[|stack| - 1] == policy && Reachable(rules, entry, e))
    && (forall i :: 0 <= i < |stack| - 1 ==> Pending(rules, entry, stack[i], e))
    && (forall i, j :: 0 <= i && j == i + 1 < |stack| ==> slots[stack[i]] == stack[j])
    && (forall i, k :: 0 <= i < k < |stack| - 1 ==> Precedes(rules, stack[k] - 1, stack[i] - 1))
  }

  lemma LiveStart(rules: seq<Rule>, entry: nat, policy: nat, slots: seq<nat>)
    requires Sound(rules, entry) && |slots| == |rules| && Policy(rules, policy)
    ensures Live(rules, entry, policy, entry, policy, [policy], slots)
  {
    ReachableSelf(rules, entry);
    TerminalIsSound(rules, policy);
  }

  /** Moving along an edge keeps every return point pending. */
  lemma LiveMove(rules: seq<Rule>, entry: nat, policy: nat, e: nat, e': nat, back: nat, stack: seq<nat>, slots: seq<nat>)
    requires Policy(rules, policy)
    requires Live(rules, entry, policy, e, back, stack, slots) && Edge(rules, e, e')
    ensures stack != []
    ensures Live(rules, entry, policy, e', back, stack, slots)
  {
    SoundStep(rules, e, e');
    ReachableEdge(rules, e, e');
    ReachableTrans(rules, entry, e, e');
    forall i | 0 <= i < |stack| - 1 ensures Pending(rules, entry, stack[i], e') {
      PrecedesTrans(rules, stack[i] - 1, e, e');
    }
  }

  lemma SelfCycle(rules: seq<Rule>, e: nat)
    requires e < |rules| && Precedes(rules, e, e)
    ensures ReachesCycle(rules, e)
  {
    ReachableSelf(rules, e);
  }

  /** No live return point is the rule behind e: its jump would be e, which leads to e. */
  lemma SlotIsFree(rules: seq<Rule>, entry: nat, policy: nat, e: nat, back: nat, stack: seq<nat>, slots: seq<nat>, i: nat)
    requires Live(rules, entry, policy, e, back, stack, slots)
    requires i < |stack| - 1
    ensures stack[i] != e + 1
  {
    assert Pending(rules, entry, stack[i], e);
    if stack[i] == e + 1 {
      SelfCycle(rules, e);
    }
  }

  /** A jump writes the old back pointer behind itself and pushes that return point; the
      words of the other return points are not disturbed. */
  lemma LiveJump(rules: seq<Rule>, entry: nat, policy: nat, e: nat, v: nat, back: nat, stack: seq<nat>, slots: seq<nat>)
    requires Policy(rules, policy)
    requires Live(rules, entry, policy, e, back, stack, slots)
    requires Edge(rules, e, v) && Edge(rules, e, e + 1) && v < |rules| && e + 1 < |rules|
    ensures stack != []
    ensures Live(rules, entry, policy, v, e + 1, [e + 1] + stack, slots[e + 1 := back])
  {
    hide Reachable, Precedes, ReachesCycle, Followable, Edge, Policy, Terminal;
    LiveMove(rules, entry, policy, e, v, back, stack, slots);
    SoundStep(rules, e, e + 1);
    ReachableEdge(rules, e, v);
    var deeper, slots' := [e + 1] + stack, slots[e + 1 := back];
    forall i | 0 <= i < |deeper| - 1 ensures Pending(rules, entry, deeper[i], v) {
      if i > 0 {
        assert deeper[i] == stack[i - 1];
        assert Pending(rules, entry, stack[i - 1], v);
      }
    }
    forall i, j | 0 <= i && j == i + 1 < |deeper| ensures slots'[deeper[i]] == deeper[j] {
      assert deeper[j] == stack[i];
      if i > 0 {
        assert deeper[i] == stack[i - 1];
        SlotIsFree(rules, entry, policy, e, back, stack, slots, i - 1);
        var a, b := i - 1, i;
        assert slots[stack[a]] == stack[b];
      }
    }
    forall i, k | 0 <= i < k < |deeper| - 1 ensures Precedes(rules, deeper[k] - 1, deeper[i] - 1) {
      assert deeper[k] == stack[k - 1];
      assert Pending(rules, entry, stack[k - 1], e);
      if i > 0 {
        assert deeper[i] == stack[i - 1];
      }
    }
    forall i | 0 <= i < |deeper| ensures Sound(rules, deeper[i]) {
      if i > 0 {
        assert deeper[i] == stack[i - 1];
      }
    }
    assert deeper[|deeper| - 1] == stack[|stack| - 1];
  }

  /** A return goes to the innermost return point; its word names the next one. */
  lemma LiveReturn(rules: seq<Rule>, entry: nat, policy: nat, e: nat, back: nat, stack: seq<nat>, slots: seq<nat>)
    requires Policy(rules, policy) && stack != []
    requires Live(rules, entry, policy, e, back, stack, slots)
    ensures back < |rules|
    ensures Live(rules, entry, policy, back, slots[back], stack[1..], slots)
  {
    hide Reachable, Precedes, ReachesCycle, Followable, Edge, Policy, Terminal;
    var rest := stack[1..];
    assert back == stack[0];
    if rest != [] {
      var i, j := 0, 1;
      assert slots[stack[i]] == stack[j];
      assert Pending(rules, entry, stack[0], e);
      var jump: nat := stack[0] - 1;
      ReturnEdge(rules, entry, jump, e);
      ReachableEdge(rules, jump, back);
      ReachableTrans(rules, entry, jump, back);
      forall i | 0 <= i < |rest| - 1 ensures Pending(rules, entry, rest[i], back) {
        assert rest[i] == stack[i + 1];
        assert Pending(rules, entry, stack[i + 1], e);
        PrecedesTrans(rules, stack[i + 1] - 1, jump, back);
      }
      forall i, k | 0 <= i < k < |rest| - 1 ensures Precedes(rules, rest[k] - 1, rest[i] - 1) {
        assert rest[i] == stack[i + 1] && rest[k] == stack[k + 1];
      }
      forall i, j | 0 <= i && j == i + 1 < |rest| ensures slots[rest[i]] == rest[j] {
        var a, b := i + 1, j + 1;
        assert slots[stack[a]] == stack[b];
      }
    }
  }

  /** A rule with a successor that is not the last one leads to the rule behind it. */
  lemma ReturnEdge(rules: seq<Rule>, entry: nat, jump: nat, e: nat)
    requires jump + 1 < |rules| && Precedes(rules, jump, e)
    ensures Edge(rules, jump, jump + 1)
  {
    var b: nat :| Edge(rules, jump, b) && Reachable(rules, b, e);
  }

  /** Pushing a return point: first the callee, then the return point, then the rest. */
  lemma ResumePush(rules: seq<Rule>, r: nat, stack: seq<nat>, o: Outcome, c: Context)
    requires Callable(rules, stack) && Sound(rules, r)
    ensures Callable(rules, [r] + stack)
    ensures Resume(rules, [r] + stack, o, c)
         == Resume(rules, stack, if o.Final? then o else Eval(rules, r, o.w, c), c)
    ensures StackBound(rules, [r] + stack) == StepBound(rules, r) + StackBound(rules, stack)
  {
    var deeper := [r] + stack;
    forall i | 0 <= i < |deeper| ensures Sound(rules, deeper[i]) {
      if i > 0 {
        assert deeper[i] == stack[i - 1];
      }
    }
    assert deeper[1..] == stack && deeper[0] == r;
  }
}
