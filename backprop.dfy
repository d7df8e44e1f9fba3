/**
 * What the backward pass computes, as functions on a vector of gradients
 * (one entry per node of the arena).
 *
 * `Rule(g, w)` is node `w`'s `_backward`: it adds `Sent(w, u, g[w]) = Partial(w, u) * g[w]` to
 * every `g[u]`. `Backprop(g, order)` runs the rules of `order` last to first,
 * as `backward` walks `reversed(topo)`. The main result is that for a
 * topological order the outcome satisfies the adjoint equations (the chain
 * rule of reverse-mode differentiation), and that these equations have only
 * one solution, so the outcome does not depend on which topological order
 * the depth-first search happened to produce.
 */
module Gradients {
  import opened Values
  import opened Topo

  /** The effect of node `w`'s backward rule on the whole gradient vector. */
  function Rule(m: Math, nodes: seq<Node>, g: seq<real>, w: nat): (h: seq<real>)
    requires Acyclic(nodes) && |g| == |nodes| && w < |nodes|
    ensures |h| == |g|
  {
    seq(|g|, k requires 0 <= k < |g| => g[k] + Sent(m, nodes, w, k, g[w]))
  }

  /** Runs the rules of `order[|order|-1]`, ..., `order[0]`, in that sequence. */
  function Backprop(m: Math, nodes: seq<Node>, g: seq<real>, order: seq<nat>): (h: seq<real>)
    requires Acyclic(nodes) && |g| == |nodes|
    requires forall i :: 0 <= i < |order| ==> order[i] < |nodes|
    ensures |h| == |g|
    decreases |order|
  {
    if order == [] then g else Rule(m, nodes, Backprop(m, nodes, g, order[1..]), order[0])
  }

  /**
   * The contributions that the nodes of `S` below id `k` send to node `u`:
   * the sum of `Partial(w, u) * f[w]` over every `w < k` in `S`.
   */
  function Upstream(m: Math, nodes: seq<Node>, S: set<nat>, f: seq<real>, u: nat, k: nat): real
    requires Acyclic(nodes) && |f| == |nodes| && k <= |nodes|
  {
    if k == 0 then 0.0
    else Upstream(m, nodes, S, f, u, k - 1) + (if k - 1 in S then Sent(m, nodes, k - 1, u, f[k - 1]) else 0.0)
  }

  /**
   * The adjoint equations: every node's final gradient `f[u]` is its initial
   * value `g[u]` plus, for every node `w` of `S` that uses it, the local
   * partial derivative of `w` with respect to `u` times `w`'s final gradient.
   */
  ghost predicate Adjoint(m: Math, nodes: seq<Node>, S: set<nat>, g: seq<real>, f: seq<real>)
    requires Acyclic(nodes) && |g| == |nodes| && |f| == |nodes|
  {
    forall u :: 0 <= u < |nodes| ==> f[u] == g[u] + Upstream(m, nodes, S, f, u, |nodes|)
  }

  /** A rule changes only the operands of its node. */
  lemma {:induction false} BackpropUntouched(m: Math, nodes: seq<Node>, g: seq<real>, order: seq<nat>, j: nat)
    requires Acyclic(nodes) && |g| == |nodes| && j < |nodes|
    requires forall i :: 0 <= i < |order| ==> order[i] < |nodes| && j !in Prev(nodes[order[i]].op)
    ensures Backprop(m, nodes, g, order)[j] == g[j]
    decreases |order|
  {
    if order != [] {
      BackpropUntouched(m, nodes, g, order[1..], j);
    }
  }

  /** Running `a + b` is running `b`, then `a`. */
  lemma {:induction false} BackpropSplit(m: Math, nodes: seq<Node>, g: seq<real>, a: seq<nat>, b: seq<nat>)
    requires Acyclic(nodes) && |g| == |nodes|
    requires forall i :: 0 <= i < |a| ==> a[i] < |nodes|
    requires forall i :: 0 <= i < |b| ==> b[i] < |nodes|
    ensures Backprop(m, nodes, g, a + b) == Backprop(m, nodes, Backprop(m, nodes, g, b), a)
    decreases |a|
  {
    if a == [] {
      assert a + b == b;
    } else {
      assert (a + b)[1..] == a[1..] + b;
      BackpropSplit(m, nodes, g, a[1..], b);
    }
  }

  /** In an operands-first order without repeats, no entry is an operand of itself or of an earlier entry. */
  lemma NotOperandOfEarlier(nodes: seq<Node>, order: seq<nat>, i: nat, k: nat)
    requires Acyclic(nodes) && OperandsFirst(nodes, order) && NoDup(order)
    requires k <= i < |order|
    ensures order[i] !in Prev(nodes[order[k]].op)
  {
    assert Below(nodes[order[k]].op, order[k]);
    if k < i {
      assert forall j :: 0 <= j < k ==> order[..k][j] != order[i];
    }
  }

  /**
   * The central invariant of reverse mode: when `backward` reaches `order[i]`,
   * its gradient already holds its final value, because every rule still to
   * run belongs to a node that cannot use it.
   */
  lemma RuleSeesFinalGrad(m: Math, nodes: seq<Node>, g: seq<real>, order: seq<nat>, i: nat)
    requires Acyclic(nodes) && |g| == |nodes| && OperandsFirst(nodes, order) && NoDup(order)
    requires i < |order|
    ensures Backprop(m, nodes, g, order[i + 1..])[order[i]] == Backprop(m, nodes, g, order)[order[i]]
  {
    assert order == order[..i + 1] + order[i + 1..];
    BackpropSplit(m, nodes, g, order[..i + 1], order[i + 1..]);
    var done := order[..i + 1];
    forall k | 0 <= k < |done|
      ensures done[k] < |nodes| && order[i] !in Prev(nodes[done[k]].op)
    {
      NotOperandOfEarlier(nodes, order, i, k);
    }
    BackpropUntouched(m, nodes, Backprop(m, nodes, g, order[i + 1..]), done, order[i]);
  }

  /** Adding one node `x` to `S` adds its contribution, once `k` is past `x`. */
  lemma {:induction false} UpstreamInsert(m: Math, nodes: seq<Node>, S: set<nat>, f: seq<real>, u: nat, k: nat, x: nat)
    requires Acyclic(nodes) && |f| == |nodes| && k <= |nodes| && x < |nodes| && x !in S
    ensures Upstream(m, nodes, S + {x}, f, u, k)
         == Upstream(m, nodes, S, f, u, k) + (if x < k then Sent(m, nodes, x, u, f[x]) else 0.0)
  {
    if k > 0 {
      UpstreamInsert(m, nodes, S, f, u, k - 1, x);
    }
  }

  /** Only the gradients of nodes above `u` enter the sum for `u`. */
  lemma {:induction false} UpstreamAgree(m: Math, nodes: seq<Node>, S: set<nat>, f1: seq<real>, f2: seq<real>, u: nat, k: nat)
    requires Acyclic(nodes) && |f1| == |nodes| && |f2| == |nodes| && k <= |nodes|
    requires forall w :: u < w < k ==> f1[w] == f2[w]
    ensures Upstream(m, nodes, S, f1, u, k) == Upstream(m, nodes, S, f2, u, k)
  {
    if k > 0 {
      UpstreamAgree(m, nodes, S, f1, f2, u, k - 1);
      if k - 1 <= u {
        PartialOfLater(m, nodes, k - 1, u);
      }
    }
  }

  /** Nothing is sent to `u` by nodes of `S` that do not use it. */
  lemma {:induction false} UpstreamNone(m: Math, nodes: seq<Node>, S: set<nat>, f: seq<real>, u: nat, k: nat)
    requires Acyclic(nodes) && |f| == |nodes| && k <= |nodes|
    requires forall w :: w in S && w < k ==> u !in Prev(nodes[w].op)
    ensures Upstream(m, nodes, S, f, u, k) == 0.0
  {
    if k > 0 {
      UpstreamNone(m, nodes, S, f, u, k - 1);
    }
  }

  /** One more candidate user `k`: it sends `c * f[k]` when it is in `S` and its partial is `c`. */
  lemma UpstreamNext(m: Math, nodes: seq<Node>, S: set<nat>, f: seq<real>, u: nat, k: nat, c: real)
    requires Acyclic(nodes) && |f| == |nodes| && k < |nodes| && Partial(m, nodes, k, u) == c
    ensures Upstream(m, nodes, S, f, u, k + 1) == Upstream(m, nodes, S, f, u, k) + (if k in S then c * f[k] else 0.0)
  {
  }

  /**
   * Running the rules of an operands-first order without repeats, from last
   * to first, solves the adjoint equations over the nodes of that order.
   */
  lemma {:induction false} BackpropSolvesAdjoint(m: Math, nodes: seq<Node>, g: seq<real>, order: seq<nat>)
    requires Acyclic(nodes) && |g| == |nodes| && OperandsFirst(nodes, order) && NoDup(order)
    ensures Adjoint(m, nodes, Elems(order), g, Backprop(m, nodes, g, order))
    decreases |order|
  {
    var f := Backprop(m, nodes, g, order);
    if order == [] {
      forall u | 0 <= u < |nodes|
        ensures f[u] == g[u] + Upstream(m, nodes, Elems(order), f, u, |nodes|)
      {
        UpstreamNone(m, nodes, Elems(order), f, u, |nodes|);
      }
    } else {
      var x, rest := order[|order| - 1], order[..|order| - 1];
      var h := Rule(m, nodes, g, x);
      LastRuleFirst(m, nodes, g, order);
      BackpropSolvesAdjoint(m, nodes, h, rest);
      AdjointStep(m, nodes, Elems(rest), g, x, f);
    }
  }

  /**
   * If `f` solves the equations over `S` once `x`'s rule has been applied to
   * `g`, and `x`'s rule saw `x`'s final gradient, then `f` solves them over
   * `S` and `x` together, starting from `g`.
   */
  lemma AdjointStep(m: Math, nodes: seq<Node>, S: set<nat>, g: seq<real>, x: nat, f: seq<real>)
    requires Acyclic(nodes) && |g| == |nodes| && |f| == |nodes| && x < |nodes| && x !in S
    requires Adjoint(m, nodes, S, Rule(m, nodes, g, x), f) && f[x] == g[x]
    ensures Adjoint(m, nodes, S + {x}, g, f)
  {
    forall u | 0 <= u < |nodes|
      ensures f[u] == g[u] + Upstream(m, nodes, S + {x}, f, u, |nodes|)
    {
      AdjointStepAt(m, nodes, S, g, x, f, u);
    }
  }

  /** `AdjointStep` at one node `u`: what `x`'s rule added to `u` is what `x` sends `u`. */
  lemma AdjointStepAt(m: Math, nodes: seq<Node>, S: set<nat>, g: seq<real>, x: nat, f: seq<real>, u: nat)
    requires Acyclic(nodes) && |g| == |nodes| && |f| == |nodes| && x < |nodes| && x !in S && u < |nodes|
    requires f[u] == Rule(m, nodes, g, x)[u] + Upstream(m, nodes, S, f, u, |nodes|) && f[x] == g[x]
    ensures f[u] == g[u] + Upstream(m, nodes, S + {x}, f, u, |nodes|)
  {
    UpstreamInsert(m, nodes, S, f, u, |nodes|, x);
    assert Sent(m, nodes, x, u, g[x]) == Sent(m, nodes, x, u, f[x]);
  }

  /** Dropping the last entry of an operands-first order without repeats leaves one. */
  lemma DropLast(nodes: seq<Node>, order: seq<nat>)
    requires Acyclic(nodes) && OperandsFirst(nodes, order) && NoDup(order) && order != []
    ensures var x, rest := order[|order| - 1], order[..|order| - 1];
      && order == rest + [x] && OperandsFirst(nodes, rest) && NoDup(rest)
      && Elems(order) == Elems(rest) + {x} && x !in Elems(rest)
      && forall i :: 0 <= i < |rest| ==> x !in Prev(nodes[rest[i]].op)
  {
    var n := |order| - 1;
    var x, rest := order[n], order[..n];
    assert order == rest + [x];
    assert OperandsFirst(nodes, rest) by {
      forall i | 0 <= i < |rest| ensures rest[..i] == order[..i] { }
    }
    forall i | 0 <= i < |rest|
      ensures x !in Prev(nodes[rest[i]].op)
    {
      NotOperandOfEarlier(nodes, order, n, i);
    }
    assert forall j :: 0 <= j < n ==> rest[j] != x;
  }

  /** A node's own rule leaves its own gradient alone. */
  lemma RuleKeepsOwn(m: Math, nodes: seq<Node>, g: seq<real>, x: nat)
    requires Acyclic(nodes) && |g| == |nodes| && x < |nodes|
    ensures Rule(m, nodes, g, x)[x] == g[x]
  {
    PartialOfLater(m, nodes, x, x);
  }

  /**
   * The last entry of an operands-first order without repeats has its rule run
   * first, with its final gradient, and no other rule writes to it.
   */
  lemma LastRuleFirst(m: Math, nodes: seq<Node>, g: seq<real>, order: seq<nat>)
    requires Acyclic(nodes) && |g| == |nodes| && OperandsFirst(nodes, order) && NoDup(order)
    requires order != []
    ensures var x, rest := order[|order| - 1], order[..|order| - 1];
      && OperandsFirst(nodes, rest) && NoDup(rest)
      && Backprop(m, nodes, g, order) == Backprop(m, nodes, Rule(m, nodes, g, x), rest)
      && Backprop(m, nodes, g, order)[x] == g[x]
      && Elems(order) == Elems(rest) + {x} && x !in Elems(rest)
  {
    var x, rest := order[|order| - 1], order[..|order| - 1];
    DropLast(nodes, order);
    RunLast(m, nodes, g, rest, x);
    BackpropUntouched(m, nodes, Rule(m, nodes, g, x), rest, x);
    RuleKeepsOwn(m, nodes, g, x);
  }

  /** The rule of the last entry runs first. */
  lemma RunLast(m: Math, nodes: seq<Node>, g: seq<real>, rest: seq<nat>, x: nat)
    requires Acyclic(nodes) && |g| == |nodes| && x < |nodes|
    requires forall i :: 0 <= i < |rest| ==> rest[i] < |nodes|
    ensures Backprop(m, nodes, g, rest + [x]) == Backprop(m, nodes, Rule(m, nodes, g, x), rest)
  {
    BackpropSplit(m, nodes, g, rest, [x]);
    assert Backprop(m, nodes, g, [x]) == Rule(m, nodes, g, x);
  }

  /** The adjoint equations have at most one solution. */
  lemma AdjointUnique(m: Math, nodes: seq<Node>, S: set<nat>, g: seq<real>, f1: seq<real>, f2: seq<real>)
    requires Acyclic(nodes) && |g| == |nodes| && |f1| == |nodes| && |f2| == |nodes|
    requires Adjoint(m, nodes, S, g, f1) && Adjoint(m, nodes, S, g, f2)
    ensures f1 == f2
  {
    AgreeFrom(m, nodes, S, g, f1, f2, 0);
  }

  /** The two solutions agree from node `u` upwards, by induction from the top of the arena down. */
  lemma {:induction false} AgreeFrom(m: Math, nodes: seq<Node>, S: set<nat>, g: seq<real>, f1: seq<real>, f2: seq<real>, u: nat)
    requires Acyclic(nodes) && |g| == |nodes| && |f1| == |nodes| && |f2| == |nodes|
    requires Adjoint(m, nodes, S, g, f1) && Adjoint(m, nodes, S, g, f2)
    ensures forall w :: u <= w < |nodes| ==> f1[w] == f2[w]
    decreases |nodes| - u
  {
    if u < |nodes| {
      AgreeFrom(m, nodes, S, g, f1, f2, u + 1);
      UpstreamAgree(m, nodes, S, f1, f2, u, |nodes|);
    }
  }

  /**
   * Any two operands-first orders of the same nodes give the same gradients,
   * so the iteration order of `_prev` in `build_topo` does not matter.
   */
  lemma OrderIrrelevant(m: Math, nodes: seq<Node>, g: seq<real>, o1: seq<nat>, o2: seq<nat>)
    requires Acyclic(nodes) && |g| == |nodes|
    requires OperandsFirst(nodes, o1) && NoDup(o1) && OperandsFirst(nodes, o2) && NoDup(o2)
    requires Elems(o1) == Elems(o2)
    ensures Backprop(m, nodes, g, o1) == Backprop(m, nodes, g, o2)
  {
    BackpropSolvesAdjoint(m, nodes, g, o1);
    BackpropSolvesAdjoint(m, nodes, g, o2);
    AdjointUnique(m, nodes, Elems(o1), g, Backprop(m, nodes, g, o1), Backprop(m, nodes, g, o2));
  }

  /** Over the nodes reachable from `root`, the root receives nothing: its gradient stays at its seed. */
  lemma AdjointAtRoot(m: Math, nodes: seq<Node>, root: nat, g: seq<real>, f: seq<real>)
    requires Acyclic(nodes) && root < |nodes| && |g| == |nodes| && |f| == |nodes|
    requires Adjoint(m, nodes, Reach(nodes, root), g, f)
    ensures f[root] == g[root]
  {
    forall w | w in Reach(nodes, root) && w < |nodes|
      ensures root !in Prev(nodes[w].op)
    {
      assert Below(nodes[w].op, w);
    }
    UpstreamNone(m, nodes, Reach(nodes, root), f, root, |nodes|);
  }

  /** Nodes that `root` does not reach keep their gradient. */
  lemma AdjointOutside(m: Math, nodes: seq<Node>, root: nat, g: seq<real>, f: seq<real>, u: nat)
    requires Acyclic(nodes) && root < |nodes| && |g| == |nodes| && |f| == |nodes|
    requires Adjoint(m, nodes, Reach(nodes, root), g, f)
    requires u < |nodes| && u !in Reach(nodes, root)
    ensures f[u] == g[u]
  {
    forall w | w in Reach(nodes, root) && w < |nodes|
      ensures u !in Prev(nodes[w].op)
    {
      if u in Prev(nodes[w].op) {
        ReachClosed(nodes, root, w, u);
      }
    }
    UpstreamNone(m, nodes, Reach(nodes, root), f, u, |nodes|);
  }
}
