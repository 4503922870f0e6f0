/** A termination measure for the stackless depth-first search: the search path read as a
    base-3 numeral, most significant step first, in which a step to the following rule
    counts 2 and any other jump counts 1. The search visits paths in increasing weight. */
module PathWeight {
  function Power3(k: nat): (r: nat)
    ensures r > 0
  {
    if k == 0 then 1 else 3 * Power3(k - 1)
  }

  function Digit(a: nat, b: nat): nat {
    if b == a + 1 then 2 else 1
  }

  /** Weight of a path whose length is at most n + 1. */
  function Weight(path: seq<nat>, n: nat): nat
    requires |path| <= n + 1
    decreases |path|
  {
    if |path| <= 1 then 0
    else Weight(path[..|path| - 1], n)
         + Digit(path[|path| - 2], path[|path| - 1]) * Power3(n + 1 - |path|)
  }

  /** No path extending `path` weighs this much. */
  function Ceiling(path: seq<nat>, n: nat): nat
    requires 1 <= |path| <= n + 1
  {
    Weight(path, n) + Power3(n + 1 - |path|)
  }

  lemma WeightExtend(path: seq<nat>, b: nat, n: nat)
    requires 1 <= |path| <= n
    ensures Weight(path + [b], n) == Weight(path, n) + Digit(path[|path| - 1], b) * Power3(n - |path|)
  {
    assert (path + [b])[..|path|] == path;
  }

  /** Going one step deeper adds weight. */
  lemma PushGains(path: seq<nat>, b: nat, n: nat)
    requires 1 <= |path| <= n
    ensures Weight(path + [b], n) > Weight(path, n)
  {
    WeightExtend(path, b, n);
    assert Digit(path[|path| - 1], b) * Power3(n - |path|) >= Power3(n - |path|);
  }

  /** Dropping the last step does not lower the ceiling. */
  lemma PopKeepsCeiling(path: seq<nat>, n: nat)
    requires 2 <= |path| <= n + 1
    ensures Ceiling(path, n) <= Ceiling(path[..|path| - 1], n)
  {
    var p := Power3(n + 1 - |path|);
    assert Power3(n + 1 - (|path| - 1)) == 3 * p;
    assert Digit(path[|path| - 2], path[|path| - 1]) * p <= 2 * p;
  }

  /** Replacing a last big jump by the step to the following rule reaches its ceiling. */
  lemma MoveAlongGains(path: seq<nat>, a: nat, b: nat, n: nat)
    requires 1 <= |path| <= n && a == path[|path| - 1] && b != a + 1
    ensures Weight(path + [a + 1], n) == Ceiling(path + [b], n)
  {
    WeightExtend(path, b, n);
    WeightExtend(path, a + 1, n);
  }

  lemma {:induction false} WeightBounded(path: seq<nat>, n: nat)
    requires 1 <= |path| <= n + 1
    ensures Ceiling(path, n) <= Power3(n)
    decreases |path|
  {
    if |path| > 1 {
      PopKeepsCeiling(path, n);
      WeightBounded(path[..|path| - 1], n);
    }
  }
}
