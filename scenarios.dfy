/**
 * Small computations written against the `Graph` class the way a micrograd
 * user writes them against `Value`, with the gradients `backward` leaves.
 * Each method builds a fresh graph, so it changes nothing a caller can see.
 * The lemmas read the adjoint equations off a concrete arena; they hold for
 * any set of reachable nodes that contains the users named in them.
 */
module Scenarios {
  import opened Values
  import opened Gradients
  import opened Engine

  /** `x + x`: the operand occurs once in `_prev`, but the rule adds `out.grad` to it twice. */
  lemma SelfSumAdjoint(m: Math, x: real, S: set<nat>, g: seq<real>, f: seq<real>)
    requires |g| == 2 && |f| == 2
    requires Acyclic([Node(x, Leaf), Node(x + x, Op.Add(0, 0))])
    requires Adjoint(m, [Node(x, Leaf), Node(x + x, Op.Add(0, 0))], S, g, f) && 1 in S
    ensures f[0] == g[0] + 2.0 * f[1]
  {
    var nodes := [Node(x, Leaf), Node(x + x, Op.Add(0, 0))];
    assert Partial(m, nodes, 0, 0) == 0.0;
    assert Partial(m, nodes, 1, 0) == 2.0;
    assert Upstream(m, nodes, S, f, 0, 1) == 0.0;
    assert Upstream(m, nodes, S, f, 0, 2) == 2.0 * f[1];
  }

  /** `(x + x).backward()` leaves `x.grad == 2`. */
  method SelfSum(m: Math, x: real) returns (gx: real)
    ensures gx == 2.0
  {
    var g := new Graph(m);
    var a := g.Constant(x);
    var s := g.Add(a, Ref(a));
    assert g.nodes == [Node(x, Leaf), Node(x + x, Op.Add(0, 0))];
    ghost var before := g.grad[..];
    g.Backward(s);
    SelfSumAdjoint(m, x, Reach(g.nodes, s), before[s := 1.0], g.grad[..]);
    gx := g.grad[a];
  }

  /** `a + b` of two leaves: each leaf receives the sum's gradient. */
  lemma SumAdjoint(m: Math, x: real, y: real, S: set<nat>, g: seq<real>, f: seq<real>)
    requires |g| == 3 && |f| == 3
    requires Acyclic([Node(x, Leaf), Node(y, Leaf), Node(x + y, Op.Add(0, 1))])
    requires Adjoint(m, [Node(x, Leaf), Node(y, Leaf), Node(x + y, Op.Add(0, 1))], S, g, f) && 2 in S
    ensures f[0] == g[0] + f[2] && f[1] == g[1] + f[2]
  {
    var nodes := [Node(x, Leaf), Node(y, Leaf), Node(x + y, Op.Add(0, 1))];
    forall u | u < 2
      ensures Upstream(m, nodes, S, f, u, 3) == f[2]
    {
      assert Partial(m, nodes, 0, u) == 0.0 && Partial(m, nodes, 1, u) == 0.0;
      assert Partial(m, nodes, 2, u) == 1.0;
      assert Upstream(m, nodes, S, f, u, 1) == 0.0;
      assert Upstream(m, nodes, S, f, u, 2) == 0.0;
    }
  }

  /** `(a + b).backward()` on two leaves: both gradients become 1. */
  method Sum(m: Math, x: real, y: real) returns (ga: real, gb: real)
    ensures ga == 1.0 && gb == 1.0
  {
    var g := new Graph(m);
    var a := g.Constant(x);
    var b := g.Constant(y);
    var s := g.Add(a, Ref(b));
    assert g.nodes == [Node(x, Leaf), Node(y, Leaf), Node(x + y, Op.Add(0, 1))];
    assert g.grad[..] == [0.0, 0.0, 0.0];
    ghost var before := g.grad[..];
    g.Backward(s);
    SumAdjoint(m, x, y, Reach(g.nodes, s), before[s := 1.0], g.grad[..]);
    ga, gb := g.grad[a], g.grad[b];
  }

  /**
   * Calling `backward` twice on the same output: the output's gradient is
   * overwritten with 1 again, while the leaves add the second pass to the
   * first and end at 2.
   */
  method SumTwice(m: Math, x: real, y: real) returns (ga: real, gb: real, gs: real)
    ensures ga == 2.0 && gb == 2.0 && gs == 1.0
  {
    var g := new Graph(m);
    var a := g.Constant(x);
    var b := g.Constant(y);
    var s := g.Add(a, Ref(b));
    assert g.nodes == [Node(x, Leaf), Node(y, Leaf), Node(x + y, Op.Add(0, 1))];
    assert g.grad[..] == [0.0, 0.0, 0.0];
    ghost var g0 := g.grad[..];
    g.Backward(s);
    SumAdjoint(m, x, y, Reach(g.nodes, s), g0[s := 1.0], g.grad[..]);
    ghost var g1 := g.grad[..];
    g.Backward(s);
    SumAdjoint(m, x, y, Reach(g.nodes, s), g1[s := 1.0], g.grad[..]);
    ga, gb, gs := g.grad[a], g.grad[b], g.grad[s];
  }

  /** `a * b` of two leaves: each leaf receives the other's data times the product's gradient. */
  lemma ProductAdjoint(m: Math, x: real, y: real, d: real, S: set<nat>, g: seq<real>, f: seq<real>)
    requires |g| == 3 && |f| == 3
    requires Acyclic([Node(x, Leaf), Node(y, Leaf), Node(d, Op.Mul(0, 1))])
    requires Adjoint(m, [Node(x, Leaf), Node(y, Leaf), Node(d, Op.Mul(0, 1))], S, g, f) && 2 in S
    ensures f[0] == g[0] + y * f[2] && f[1] == g[1] + x * f[2]
  {
    var nodes := [Node(x, Leaf), Node(y, Leaf), Node(d, Op.Mul(0, 1))];
    forall u | u < 2
      ensures Upstream(m, nodes, S, f, u, 3) == Partial(m, nodes, 2, u) * f[2]
    {
      assert Partial(m, nodes, 0, u) == 0.0 && Partial(m, nodes, 1, u) == 0.0;
      assert Upstream(m, nodes, S, f, u, 1) == 0.0;
      assert Upstream(m, nodes, S, f, u, 2) == 0.0;
    }
    assert Partial(m, nodes, 2, 0) == y && Partial(m, nodes, 2, 1) == x;
  }

  /** `(a * b).backward()` on two leaves: `a.grad == b.data` and `b.grad == a.data`. */
  method Product(m: Math, x: real, y: real) returns (ga: real, gb: real)
    ensures ga == y && gb == x
  {
    var g := new Graph(m);
    var a := g.Constant(x);
    var b := g.Constant(y);
    var p := g.Mul(a, Ref(b));
    ghost var d := g.nodes[p].data;
    assert g.nodes == [Node(x, Leaf), Node(y, Leaf), Node(d, Op.Mul(0, 1))];
    ghost var before := g.grad[..];
    g.Backward(p);
    ProductAdjoint(m, x, y, d, Reach(g.nodes, p), before[p := 1.0], g.grad[..]);
    ga, gb := g.grad[a], g.grad[b];
  }

  /** `x * x`: both terms of the product rule reach the single operand. */
  lemma SquareAdjoint(m: Math, x: real, d: real, S: set<nat>, g: seq<real>, f: seq<real>)
    requires |g| == 2 && |f| == 2
    requires Acyclic([Node(x, Leaf), Node(d, Op.Mul(0, 0))])
    requires Adjoint(m, [Node(x, Leaf), Node(d, Op.Mul(0, 0))], S, g, f) && 1 in S
    ensures f[0] == g[0] + (x + x) * f[1]
  {
    var nodes := [Node(x, Leaf), Node(d, Op.Mul(0, 0))];
    assert Partial(m, nodes, 0, 0) == 0.0;
    assert Partial(m, nodes, 1, 0) == x + x;
    assert Upstream(m, nodes, S, f, 0, 1) == 0.0;
  }

  /** `(x * x).backward()` leaves `x.grad == 2 * x.data`. */
  method Square(m: Math, x: real) returns (gx: real)
    ensures gx == 2.0 * x
  {
    var g := new Graph(m);
    var a := g.Constant(x);
    var s := g.Mul(a, Ref(a));
    ghost var d := g.nodes[s].data;
    assert g.nodes == [Node(x, Leaf), Node(d, Op.Mul(0, 0))];
    ghost var before := g.grad[..];
    g.Backward(s);
    SquareAdjoint(m, x, d, Reach(g.nodes, s), before[s := 1.0], g.grad[..]);
    gx := g.grad[a];
  }

  /** `relu` of a leaf: the leaf receives the gradient only where its data is positive. */
  lemma ReluAdjoint(m: Math, x: real, S: set<nat>, g: seq<real>, f: seq<real>)
    requires |g| == 2 && |f| == 2
    requires Acyclic([Node(x, Leaf), Node(ReluOf(x), Op.Relu(0))])
    requires Adjoint(m, [Node(x, Leaf), Node(ReluOf(x), Op.Relu(0))], S, g, f) && 1 in S
    ensures f[0] == g[0] + (if x > 0.0 then f[1] else 0.0)
  {
    var nodes := [Node(x, Leaf), Node(ReluOf(x), Op.Relu(0))];
    assert Partial(m, nodes, 0, 0) == 0.0;
    assert Upstream(m, nodes, S, f, 0, 1) == 0.0;
    assert Partial(m, nodes, 1, 0) == if x > 0.0 then 1.0 else 0.0;
  }

  /**
   * `relu().backward()`: the input's gradient is 1 for positive data and 0
   * otherwise, so at exactly 0 both the output and the gradient are 0.
   */
  method Relu(m: Math, x: real) returns (out: real, gx: real)
    ensures out == (if x < 0.0 then 0.0 else x)
    ensures gx == (if x > 0.0 then 1.0 else 0.0)
    ensures x == 0.0 ==> out == 0.0 && gx == 0.0
  {
    var g := new Graph(m);
    var a := g.Constant(x);
    var r := g.Relu(a);
    assert g.nodes == [Node(x, Leaf), Node(ReluOf(x), Op.Relu(0))];
    ghost var before := g.grad[..];
    g.Backward(r);
    ReluAdjoint(m, x, Reach(g.nodes, r), before[r := 1.0], g.grad[..]);
    out, gx := g.nodes[r].data, g.grad[a];
  }

  /**
   * `backward` on a leaf: the leaf's own gradient becomes 1 and, since its
   * rule does nothing and nothing else is reachable, every other gradient
   * keeps its value.
   */
  method LeafBackward(m: Math, x: real, y: real) returns (ga: real, gb: real)
    ensures ga == 1.0 && gb == 0.0
  {
    var g := new Graph(m);
    var a := g.Constant(x);
    var b := g.Constant(y);
    assert g.nodes == [Node(x, Leaf), Node(y, Leaf)];
    assert b !in Reach(g.nodes, a);
    g.Backward(a);
    ga, gb := g.grad[a], g.grad[b];
  }

  /**
   * A node built before `backward` but not used by the output keeps its
   * gradient, while the operands of the output receive theirs.
   */
  method Unused(m: Math, x: real, y: real, z: real) returns (ga: real, gc: real)
    ensures ga == 1.0 && gc == 0.0
  {
    var g := new Graph(m);
    var a := g.Constant(x);
    var b := g.Constant(y);
    var s := g.Add(a, Ref(b));
    var c := g.Constant(z);
    assert g.nodes == [Node(x, Leaf), Node(y, Leaf), Node(x + y, Op.Add(0, 1)), Node(z, Leaf)];
    assert c !in Reach(g.nodes, s);
    ghost var before := g.grad[..];
    g.Backward(s);
    UnusedAdjoint(m, x, y, z, Reach(g.nodes, s), before[s := 1.0], g.grad[..]);
    ga, gc := g.grad[a], g.grad[c];
  }

  /** The sum's operands, with a fourth node allocated after the sum. */
  lemma UnusedAdjoint(m: Math, x: real, y: real, z: real, S: set<nat>, g: seq<real>, f: seq<real>)
    requires |g| == 4 && |f| == 4
    requires Acyclic([Node(x, Leaf), Node(y, Leaf), Node(x + y, Op.Add(0, 1)), Node(z, Leaf)])
    requires Adjoint(m, [Node(x, Leaf), Node(y, Leaf), Node(x + y, Op.Add(0, 1)), Node(z, Leaf)], S, g, f)
    requires 2 in S
    ensures f[0] == g[0] + f[2]
  {
    var nodes := [Node(x, Leaf), Node(y, Leaf), Node(x + y, Op.Add(0, 1)), Node(z, Leaf)];
    assert Partial(m, nodes, 0, 0) == 0.0 && Partial(m, nodes, 1, 0) == 0.0;
    assert Partial(m, nodes, 2, 0) == 1.0 && Partial(m, nodes, 3, 0) == 0.0;
    assert Upstream(m, nodes, S, f, 0, 1) == 0.0;
    assert Upstream(m, nodes, S, f, 0, 2) == 0.0;
    assert Upstream(m, nodes, S, f, 0, 3) == f[2];
  }

  /** `a ** b` with a value `b` is refused and leaves the graph as it was. */
  method PowOfValue(m: Math, x: real, y: real) returns (r: Result<nat>, size: nat)
    ensures r == Err(InvalidExponent) && size == 2
  {
    var g := new Graph(m);
    var a := g.Constant(x);
    var b := g.Constant(y);
    r := g.Pow(a, Ref(b));
    size := |g.nodes|;
  }

  /** `a - b` of two leaves, built as `a + b * -1`: no rule beyond those of `+` and `*`. */
  lemma DifferenceAdjoint(m: Math, x: real, y: real, d: real, e: real, S: set<nat>, g: seq<real>, f: seq<real>)
    requires |g| == 5 && |f| == 5
    requires Acyclic([Node(x, Leaf), Node(y, Leaf), Node(-1.0, Leaf), Node(d, Op.Mul(1, 2)), Node(e, Op.Add(0, 3))])
    requires Adjoint(m, [Node(x, Leaf), Node(y, Leaf), Node(-1.0, Leaf), Node(d, Op.Mul(1, 2)), Node(e, Op.Add(0, 3))], S, g, f)
    requires 3 in S && 4 in S
    ensures f[0] == g[0] + f[4] && f[3] == g[3] + f[4] && f[1] == g[1] - f[3]
  {
    var nodes := [Node(x, Leaf), Node(y, Leaf), Node(-1.0, Leaf), Node(d, Op.Mul(1, 2)), Node(e, Op.Add(0, 3))];
    UpstreamNone(m, nodes, S, f, 0, 3);
    UpstreamNext(m, nodes, S, f, 0, 3, 0.0);
    UpstreamNext(m, nodes, S, f, 0, 4, 1.0);
    UpstreamNone(m, nodes, S, f, 3, 3);
    UpstreamNext(m, nodes, S, f, 3, 3, 0.0);
    UpstreamNext(m, nodes, S, f, 3, 4, 1.0);
    UpstreamNone(m, nodes, S, f, 1, 3);
    UpstreamNext(m, nodes, S, f, 1, 3, -1.0);
    UpstreamNext(m, nodes, S, f, 1, 4, 0.0);
  }

  /** `(a - b).backward()` on two leaves: `a.grad == 1` and `b.grad == -1`. */
  method Difference(m: Math, x: real, y: real) returns (ga: real, gb: real)
    ensures ga == 1.0 && gb == -1.0
  {
    var g := new Graph(m);
    var a := g.Constant(x);
    var b := g.Constant(y);
    var r := g.Sub(a, Ref(b));
    ghost var d, e := g.nodes[3].data, g.nodes[4].data;
    assert g.nodes == [Node(x, Leaf), Node(y, Leaf), Node(-1.0, Leaf), Node(d, Op.Mul(1, 2)), Node(e, Op.Add(0, 3))];
    ReachClosed(g.nodes, r, r, 3);
    assert g.grad[..] == [0.0, 0.0, 0.0, 0.0, 0.0];
    ghost var before := g.grad[..];
    g.Backward(r);
    DifferenceAdjoint(m, x, y, d, e, Reach(g.nodes, r), before[r := 1.0], g.grad[..]);
    ga, gb := g.grad[a], g.grad[b];
  }

  /** The arena `a / b` builds from two leaves: `a * b ** -1`. */
  ghost predicate QuotientShape(nodes: seq<Node>) {
    && |nodes| == 4 && nodes[0].op == Leaf && nodes[1].op == Leaf
    && nodes[2].op == Op.Pow(1, -1.0) && nodes[3].op == Op.Mul(0, 2)
  }

  /** What the users of each node of `a / b` send it. */
  lemma QuotientUpstream(m: Math, nodes: seq<Node>, S: set<nat>, f: seq<real>)
    requires QuotientShape(nodes) && Acyclic(nodes) && |f| == 4 && 2 in S && 3 in S
    ensures Upstream(m, nodes, S, f, 0, 4) == nodes[2].data * f[3]
    ensures Upstream(m, nodes, S, f, 2, 4) == nodes[0].data * f[3]
    ensures Upstream(m, nodes, S, f, 1, 4) == PowSlope(m, nodes[1].data, -1.0) * f[2]
  {
    forall u | u < 4
      ensures Upstream(m, nodes, S, f, u, 2) == 0.0
    {
      UpstreamNone(m, nodes, S, f, u, 2);
    }
    UpstreamNext(m, nodes, S, f, 0, 2, 0.0);
    UpstreamNext(m, nodes, S, f, 0, 3, nodes[2].data);
    UpstreamNext(m, nodes, S, f, 2, 2, 0.0);
    UpstreamNext(m, nodes, S, f, 2, 3, nodes[0].data);
    UpstreamNext(m, nodes, S, f, 1, 2, PowSlope(m, nodes[1].data, -1.0));
    UpstreamNext(m, nodes, S, f, 1, 3, 0.0);
  }

  /** `a / b` of two leaves: the divisor's gradient goes through the power rule. */
  lemma QuotientAdjoint(m: Math, nodes: seq<Node>, S: set<nat>, g: seq<real>, f: seq<real>)
    requires QuotientShape(nodes) && Acyclic(nodes) && |g| == 4 && |f| == 4
    requires Adjoint(m, nodes, S, g, f) && 2 in S && 3 in S
    ensures f[0] == g[0] + nodes[2].data * f[3] && f[2] == g[2] + nodes[0].data * f[3]
    ensures f[1] == g[1] + PowSlope(m, nodes[1].data, -1.0) * f[2]
  {
    QuotientUpstream(m, nodes, S, f);
  }

  /** The quotient's gradients for a seed of 1.0 at the quotient and 0.0 elsewhere. */
  lemma QuotientSeeded(m: Math, nodes: seq<Node>, S: set<nat>, g: seq<real>, f: seq<real>,
                       x: real, y: real, ga: real, gb: real)
    requires QuotientShape(nodes) && Acyclic(nodes) && |g| == 4 && |f| == 4
    requires Adjoint(m, nodes, S, g, f) && 2 in S && 3 in S
    requires nodes[0].data == x && nodes[1].data == y && nodes[2].data == Power(m, y, -1.0)
    requires f[3] == 1.0 && forall i :: 0 <= i < 3 ==> g[i] == 0.0
    requires ga == f[0] && gb == f[1]
    ensures ga == Power(m, y, -1.0)
    ensures gb == PowSlope(m, y, -1.0) * x
  {
    QuotientAdjoint(m, nodes, S, g, f);
  }

  /**
   * `(a / b).backward()` on two leaves: `a.grad == b.data ** -1` and
   * `b.grad == a.data * (-1 * b.data ** -2)`, with `**` the host's power.
   */
  method Quotient(m: Math, x: real, y: real) returns (ga: real, gb: real)
    ensures ga == Power(m, y, -1.0)
    ensures gb == PowSlope(m, y, -1.0) * x
  {
    var g := BuildQuotient(m, x, y);
    ReachClosed(g.nodes, 3, 3, 2);
    ghost var before := g.grad[..];
    g.Backward(3);
    ga, gb := g.grad[0], g.grad[1];
    QuotientSeeded(m, g.nodes, Reach(g.nodes, 3), before[3 := 1.0], g.grad[..], x, y, ga, gb);
  }

  /** Builds `a / b` from two fresh leaves. */
  method BuildQuotient(m: Math, x: real, y: real) returns (g: Graph)
    ensures fresh(g) && fresh(g.grad) && g.math == m && QuotientShape(g.nodes)
    ensures Acyclic(g.nodes) && g.grad.Length == |g.nodes|
    ensures g.nodes[0].data == x && g.nodes[1].data == y && g.nodes[2].data == Power(m, y, -1.0)
    ensures forall i :: 0 <= i < g.grad.Length ==> g.grad[i] == 0.0
  {
    g := new Graph(m);
    var a := g.Constant(x);
    var b := g.Constant(y);
    var r := g.Div(a, Ref(b));
  }

  /** The arena `(w * x + b).tanh()` builds from three leaves. */
  ghost predicate NeuronShape(nodes: seq<Node>) {
    && |nodes| == 6 && nodes[0].op == Leaf && nodes[1].op == Leaf && nodes[2].op == Leaf
    && nodes[3].op == Op.Mul(0, 1) && nodes[4].op == Op.Add(3, 2) && nodes[5].op == Op.Tanh(4)
  }

  /** What the users of each node of the neuron send it. */
  lemma NeuronUpstream(m: Math, nodes: seq<Node>, S: set<nat>, f: seq<real>)
    requires NeuronShape(nodes) && Acyclic(nodes) && |f| == 6 && 3 in S && 4 in S && 5 in S
    ensures Upstream(m, nodes, S, f, 4, 6) == (1.0 - nodes[5].data * nodes[5].data) * f[5]
    ensures Upstream(m, nodes, S, f, 3, 6) == f[4] && Upstream(m, nodes, S, f, 2, 6) == f[4]
    ensures Upstream(m, nodes, S, f, 0, 6) == nodes[1].data * f[3]
    ensures Upstream(m, nodes, S, f, 1, 6) == nodes[0].data * f[3]
  {
    forall u | u < 6
      ensures Upstream(m, nodes, S, f, u, 3) == 0.0
    {
      UpstreamNone(m, nodes, S, f, u, 3);
    }
    NeuronOutput(m, nodes, S, f);
    NeuronSum(m, nodes, S, f, 3);
    NeuronSum(m, nodes, S, f, 2);
    NeuronProduct(m, nodes, S, f);
  }

  /** The sum node hears only from `tanh`. */
  lemma NeuronOutput(m: Math, nodes: seq<Node>, S: set<nat>, f: seq<real>)
    requires NeuronShape(nodes) && Acyclic(nodes) && |f| == 6 && 5 in S
    requires Upstream(m, nodes, S, f, 4, 3) == 0.0
    ensures Upstream(m, nodes, S, f, 4, 6) == (1.0 - nodes[5].data * nodes[5].data) * f[5]
  {
    UpstreamNext(m, nodes, S, f, 4, 3, 0.0);
    UpstreamNext(m, nodes, S, f, 4, 4, 0.0);
    UpstreamNext(m, nodes, S, f, 4, 5, 1.0 - nodes[5].data * nodes[5].data);
  }

  /** The product node and the bias hear only from the sum. */
  lemma NeuronSum(m: Math, nodes: seq<Node>, S: set<nat>, f: seq<real>, u: nat)
    requires NeuronShape(nodes) && Acyclic(nodes) && |f| == 6 && 4 in S && (u == 3 || u == 2)
    requires Upstream(m, nodes, S, f, u, 3) == 0.0
    ensures Upstream(m, nodes, S, f, u, 6) == f[4]
  {
    UpstreamNext(m, nodes, S, f, u, 3, 0.0);
    UpstreamNext(m, nodes, S, f, u, 4, 1.0);
    UpstreamNext(m, nodes, S, f, u, 5, 0.0);
  }

  /** Each factor hears from the product, scaled by the other factor. */
  lemma NeuronProduct(m: Math, nodes: seq<Node>, S: set<nat>, f: seq<real>)
    requires NeuronShape(nodes) && Acyclic(nodes) && |f| == 6 && 3 in S
    requires Upstream(m, nodes, S, f, 0, 3) == 0.0 && Upstream(m, nodes, S, f, 1, 3) == 0.0
    ensures Upstream(m, nodes, S, f, 0, 6) == nodes[1].data * f[3]
    ensures Upstream(m, nodes, S, f, 1, 6) == nodes[0].data * f[3]
  {
    UpstreamNext(m, nodes, S, f, 0, 3, nodes[1].data);
    UpstreamNext(m, nodes, S, f, 0, 4, 0.0);
    UpstreamNext(m, nodes, S, f, 0, 5, 0.0);
    UpstreamNext(m, nodes, S, f, 1, 3, nodes[0].data);
    UpstreamNext(m, nodes, S, f, 1, 4, 0.0);
    UpstreamNext(m, nodes, S, f, 1, 5, 0.0);
  }

  /** `tanh(w * x + b)`: the chain rule through a neuron's three operations. */
  lemma NeuronAdjoint(m: Math, nodes: seq<Node>, S: set<nat>, g: seq<real>, f: seq<real>)
    requires NeuronShape(nodes) && Acyclic(nodes) && |g| == 6 && |f| == 6
    requires Adjoint(m, nodes, S, g, f) && 3 in S && 4 in S && 5 in S
    ensures f[4] == g[4] + (1.0 - nodes[5].data * nodes[5].data) * f[5]
    ensures f[3] == g[3] + f[4] && f[2] == g[2] + f[4]
    ensures f[0] == g[0] + nodes[1].data * f[3] && f[1] == g[1] + nodes[0].data * f[3]
  {
    NeuronUpstream(m, nodes, S, f);
  }

  /** The neuron's gradients for a seed of 1.0 at the output and 0.0 elsewhere. */
  lemma NeuronSeeded(m: Math, nodes: seq<Node>, S: set<nat>, g: seq<real>, f: seq<real>,
                     w: real, x: real, t: real, gw: real, gx: real, gb: real)
    requires NeuronShape(nodes) && Acyclic(nodes) && |g| == 6 && |f| == 6
    requires Adjoint(m, nodes, S, g, f) && 3 in S && 4 in S && 5 in S
    requires nodes[0].data == w && nodes[1].data == x && nodes[5].data == t
    requires f[5] == 1.0 && forall i :: 0 <= i < 5 ==> g[i] == 0.0
    requires gw == f[0] && gx == f[1] && gb == f[2]
    ensures gb == 1.0 - t * t && gw == x * gb && gx == w * gb
  {
    NeuronAdjoint(m, nodes, S, g, f);
  }

  /**
   * `(w * x + b).tanh().backward()` on three leaves: with `t` the output,
   * `b.grad == 1 - t ** 2`, `w.grad == x * (1 - t ** 2)` and
   * `x.grad == w * (1 - t ** 2)`.
   */
  method Neuron(m: Math, w: real, x: real, b: real) returns (t: real, gw: real, gx: real, gb: real)
    ensures t == TanhOf(m, w * x + b)
    ensures gb == 1.0 - t * t && gw == x * gb && gx == w * gb
  {
    var g := BuildNeuron(m, w, x, b);
    t := g.nodes[5].data;
    ReachClosed(g.nodes, 5, 5, 4);
    ReachClosed(g.nodes, 5, 4, 3);
    ghost var before := g.grad[..];
    g.Backward(5);
    gw, gx, gb := g.grad[0], g.grad[1], g.grad[2];
    NeuronSeeded(m, g.nodes, Reach(g.nodes, 5), before[5 := 1.0], g.grad[..], w, x, t, gw, gx, gb);
  }

  /** Builds `(w * x + b).tanh()` from three fresh leaves. */
  method BuildNeuron(m: Math, w: real, x: real, b: real) returns (g: Graph)
    ensures fresh(g) && fresh(g.grad) && g.math == m && NeuronShape(g.nodes)
    ensures Acyclic(g.nodes) && g.grad.Length == |g.nodes|
    ensures g.nodes[0].data == w && g.nodes[1].data == x && g.nodes[2].data == b
    ensures g.nodes[5].data == TanhOf(m, w * x + b)
    ensures forall i :: 0 <= i < g.grad.Length ==> g.grad[i] == 0.0
  {
    g := new Graph(m);
    var iw := g.Constant(w);
    var ix := g.Constant(x);
    var ib := g.Constant(b);
    assert g.nodes == [Node(w, Leaf), Node(x, Leaf), Node(b, Leaf)];
    assert g.grad[..] == [0.0, 0.0, 0.0];
    var ip := g.Mul(iw, Ref(ix));
    var iz := g.Add(ip, Ref(ib));
    var it := g.Tanh(iz);
    assert g.grad[..] == [0.0, 0.0, 0.0, 0.0, 0.0, 0.0];
    NeuronForward(m, g.nodes, w, x, b);
  }

  /** The forward pass of the neuron computes `tanh(w * x + b)`. */
  lemma NeuronForward(m: Math, nodes: seq<Node>, w: real, x: real, b: real)
    requires NeuronShape(nodes) && WellFormed(m, nodes)
    requires nodes[0].data == w && nodes[1].data == x && nodes[2].data == b
    ensures nodes[5].data == TanhOf(m, w * x + b)
  {
    assert Computes(m, nodes, nodes[3]) && Computes(m, nodes, nodes[4]) && Computes(m, nodes, nodes[5]);
    assert nodes[3].data == w * x;
    assert nodes[4].data == w * x + b;
    assert nodes[5].data == TanhOf(m, nodes[4].data);
  }
}
