/**
 * micrograd's `Value` class, with every value of one computation living in
 * a `Graph`: `nodes` is the arena (each forward operation appends to it) and
 * `grad[i]` is the `grad` field of node `i`. A node id plays the part of a
 * Python object reference.
 */
module Engine {
  import opened Values
  import opened Topo
  import opened Gradients

  /** The assertion `__pow__` makes about its exponent. */
  datatype Error = InvalidExponent

  datatype Result<T> = Ok(value: T) | Err(error: Error)

  /** `n` zero gradients. */
  function Zeros(n: nat): (z: seq<real>)
    ensures |z| == n && forall i :: 0 <= i < n ==> z[i] == 0.0
  {
    seq(n, _ => 0.0)
  }

  /** The leaf node a plain number operand is wrapped into (none for a value). */
  function Wrap(x: Arg): seq<Node> {
    if x.Num? then [Node(x.x, Leaf)] else []
  }

  /** The id of the operand once wrapped, when the arena held `n` nodes before. */
  function IdOf(x: Arg, n: nat): nat {
    if x.Ref? then x.id else n
  }

  /** The forward value of an operand. */
  function DataOf(nodes: seq<Node>, x: Arg): real
    requires x.Ref? ==> x.id < |nodes|
  {
    if x.Num? then x.x else nodes[x.id].data
  }

  /** A vector that agrees with the rule's formula at every entry is the rule's result. */
  lemma RuleByEntries(m: Math, nodes: seq<Node>, g: seq<real>, w: nat, h: seq<real>, out: real)
    requires Acyclic(nodes) && |g| == |nodes| && w < |nodes| && |h| == |g| && out == g[w]
    requires forall k :: 0 <= k < |g| ==> h[k] == g[k] + Sent(m, nodes, w, k, out)
    ensures h == Rule(m, nodes, g, w)
  {
    var r := Rule(m, nodes, g, w);
    forall k | 0 <= k < |g|
      ensures r[k] == h[k]
    {
    }
  }

  /** A product node built from two existing nodes holds their product. */
  lemma ProductComputes(m: Math, nodes: seq<Node>, n: Node)
    requires n.op.Mul? && n.op.a < |nodes| && n.op.b < |nodes|
    requires n.data == nodes[n.op.a].data * nodes[n.op.b].data
    ensures Below(n.op, |nodes|) && Computes(m, nodes, n)
  {
  }

  class Graph {
    const math: Math
    var nodes: seq<Node>
    var grad: array<real>

    ghost predicate Valid()
      reads this
    {
      WellFormed(math, nodes) && grad.Length == |nodes|
    }

    /** The operand is a number or a value of this graph. */
    predicate Has(x: Arg)
      reads this
    {
      x.Ref? ==> x.id < |nodes|
    }

    constructor (m: Math)
      ensures Valid() && math == m && nodes == [] && fresh(grad)
    {
      math := m;
      nodes := [];
      grad := new real[0];
    }

    /** `Value.__init__`: a new node, with `grad` 0.0 and the rule its operation selects. */
    method Push(n: Node) returns (id: nat)
      requires Valid() && Below(n.op, |nodes|) && Computes(math, nodes, n)
      modifies this
      ensures Valid() && fresh(grad)
      ensures nodes == old(nodes) + [n] && id == |old(nodes)|
      ensures grad[..] == old(grad[..]) + [0.0]
    {
      var g := new real[grad.Length + 1];
      forall i | 0 <= i < grad.Length {
        g[i] := grad[i];
      }
      g[grad.Length] := 0.0;
      ghost var before := nodes;
      id := |nodes|;
      nodes := nodes + [n];
      grad := g;
      forall i | 0 <= i < |nodes|
        ensures Below(nodes[i].op, i) && Computes(math, nodes, nodes[i])
      {
        if i < |before| {
          assert Below(before[i].op, i) && Computes(math, before, before[i]);
          ComputesExtend(math, before, nodes, nodes[i]);
        } else {
          ComputesExtend(math, before, nodes, n);
        }
      }
    }

    /** `Value(x)`: a leaf. */
    method Constant(x: real) returns (id: nat)
      requires Valid()
      modifies this
      ensures Valid() && fresh(grad)
      ensures nodes == old(nodes) + [Node(x, Leaf)] && id == |nodes| - 1
      ensures grad[..] == old(grad[..]) + [0.0]
    {
      id := Push(Node(x, Leaf));
    }

    /** `other if isinstance(other, Value) else Value(other)`. */
    method Lift(x: Arg) returns (id: nat)
      requires Valid() && Has(x)
      modifies this
      ensures Valid() && id < |nodes| && id == IdOf(x, |old(nodes)|)
      ensures nodes == old(nodes) + Wrap(x) && nodes[id].data == DataOf(old(nodes), x)
      ensures x.Ref? ==> grad == old(grad)
      ensures x.Num? ==> fresh(grad)
      ensures grad[..] == old(grad[..]) + Zeros(|Wrap(x)|)
    {
      if x.Ref? {
        id := x.id;
        assert grad[..] == old(grad[..]) + [];
      } else {
        id := Constant(x.x);
      }
    }

    /** `__add__`: data is the sum; the rule adds `out.grad` to each operand. */
    method Add(a: nat, other: Arg) returns (r: nat)
      requires Valid() && a < |nodes| && Has(other)
      modifies this
      ensures Valid() && fresh(grad) && r == |nodes| - 1
      ensures nodes == old(nodes) + Wrap(other)
                       + [Node(old(nodes[a].data + DataOf(nodes, other)), Op.Add(a, IdOf(other, |old(nodes)|)))]
      ensures grad[..] == old(grad[..]) + Zeros(|nodes| - |old(nodes)|)
    {
      var b := Lift(other);
      r := Push(Node(nodes[a].data + nodes[b].data, Op.Add(a, b)));
    }

    /** `__mul__`: data is the product; each operand receives the other's data times `out.grad`. */
    method Mul(a: nat, other: Arg) returns (r: nat)
      requires Valid() && a < |nodes| && Has(other)
      modifies this
      ensures Valid() && fresh(grad) && r == |nodes| - 1
      ensures nodes == old(nodes) + Wrap(other) + [Node(nodes[r].data, Op.Mul(a, IdOf(other, |old(nodes)|)))]
      ensures grad[..] == old(grad[..]) + Zeros(|nodes| - |old(nodes)|)
    {
      var b := Lift(other);
      var n := Node(nodes[a].data * nodes[b].data, Op.Mul(a, b));
      ProductComputes(math, nodes, n);
      r := Push(n);
    }

    /** `__pow__`: only a number may be the exponent; a value is refused and nothing is built. */
    method Pow(a: nat, other: Arg) returns (r: Result<nat>)
      requires Valid() && a < |nodes| && Has(other)
      modifies this
      ensures Valid()
      ensures other.Ref? ==> r == Err(InvalidExponent) && unchanged(this)
      ensures other.Num? ==> && fresh(grad) && r == Ok(|nodes| - 1)
                             && nodes == old(nodes) + [Node(Power(math, old(nodes[a].data), other.x), Op.Pow(a, other.x))]
                             && grad[..] == old(grad[..]) + [0.0]
    {
      if other.Ref? {
        return Err(InvalidExponent);
      }
      var id := Push(Node(Power(math, nodes[a].data, other.x), Op.Pow(a, other.x)));
      r := Ok(id);
    }

    /** `tanh`: computed through `exp(2n)`, so it lies strictly between -1 and 1. */
    method Tanh(a: nat) returns (r: nat)
      requires Valid() && a < |nodes|
      modifies this
      ensures Valid() && fresh(grad) && r == |nodes| - 1
      ensures nodes == old(nodes) + [Node(TanhOf(math, old(nodes[a].data)), Op.Tanh(a))]
      ensures -1.0 < nodes[r].data < 1.0
      ensures grad[..] == old(grad[..]) + [0.0]
    {
      r := Push(Node(TanhOf(math, nodes[a].data), Op.Tanh(a)));
    }

    /** `relu`: never negative, and equal to the input wherever the input is not negative. */
    method Relu(a: nat) returns (r: nat)
      requires Valid() && a < |nodes|
      modifies this
      ensures Valid() && fresh(grad) && r == |nodes| - 1
      ensures nodes == old(nodes) + [Node(ReluOf(old(nodes[a].data)), Op.Relu(a))]
      ensures nodes[r].data >= 0.0 && (nodes[a].data >= 0.0 ==> nodes[r].data == nodes[a].data)
      ensures grad[..] == old(grad[..]) + [0.0]
    {
      r := Push(Node(ReluOf(nodes[a].data), Op.Relu(a)));
    }

    /** `exp`: always positive. */
    method Exp(a: nat) returns (r: nat)
      requires Valid() && a < |nodes|
      modifies this
      ensures Valid() && fresh(grad) && r == |nodes| - 1
      ensures nodes == old(nodes) + [Node(math.exp(old(nodes[a].data)), Op.Exp(a))]
      ensures nodes[r].data > 0.0
      ensures grad[..] == old(grad[..]) + [0.0]
    {
      r := Push(Node(math.exp(nodes[a].data), Op.Exp(a)));
    }

    /** `__radd__`: `number + value`, built as `value + number`. */
    method RAdd(a: nat, x: real) returns (r: nat)
      requires Valid() && a < |nodes|
      modifies this
      ensures Valid() && fresh(grad) && r == |nodes| - 1
      ensures nodes == old(nodes) + [Node(x, Leaf), Node(old(nodes[a].data) + x, Op.Add(a, |old(nodes)|))]
      ensures grad[..] == old(grad[..]) + Zeros(2)
    {
      r := Add(a, Num(x));
    }

    /** `__rmul__`: `number * value`, built as `value * number`. */
    method RMul(a: nat, x: real) returns (r: nat)
      requires Valid() && a < |nodes|
      modifies this
      ensures Valid() && fresh(grad) && r == |nodes| - 1
      ensures nodes == old(nodes) + [Node(x, Leaf), Node(nodes[r].data, Op.Mul(a, |old(nodes)|))]
      ensures grad[..] == old(grad[..]) + Zeros(2)
    {
      r := Mul(a, Num(x));
    }

    /** `__neg__`: multiplication by the constant -1, so no rule of its own. */
    method Neg(a: nat) returns (r: nat)
      requires Valid() && a < |nodes|
      modifies this
      ensures Valid() && fresh(grad) && r == |nodes| - 1
      ensures nodes == old(nodes) + [Node(-1.0, Leaf), Node(-old(nodes[a].data), Op.Mul(a, |old(nodes)|))]
      ensures grad[..] == old(grad[..]) + Zeros(2)
    {
      r := Mul(a, Num(-1.0));
    }

    /**
     * `__sub__`: `self + (-other)`. A number is negated as a number; a value
     * is negated through `__neg__`.
     */
    method Sub(a: nat, other: Arg) returns (r: nat)
      requires Valid() && a < |nodes| && Has(other)
      modifies this
      ensures Valid() && fresh(grad) && r == |nodes| - 1
      ensures nodes[r].data == old(nodes[a].data - DataOf(nodes, other))
      ensures other.Num? ==> nodes == old(nodes) + [Node(-other.x, Leaf), Node(nodes[r].data, Op.Add(a, |old(nodes)|))]
      ensures other.Ref? ==>
        nodes == old(nodes) + [Node(-1.0, Leaf), Node(-old(nodes[other.id].data), Op.Mul(other.id, |old(nodes)|)),
                               Node(nodes[r].data, Op.Add(a, |old(nodes)| + 1))]
      ensures grad[..] == old(grad[..]) + Zeros(|nodes| - |old(nodes)|)
    {
      if other.Num? {
        r := Add(a, Num(-other.x));
      } else {
        var n := Neg(other.id);
        r := Add(a, Ref(n));
      }
    }

    /** `__rsub__`: `number - value`, built as `(-value) + number`. */
    method RSub(a: nat, x: real) returns (r: nat)
      requires Valid() && a < |nodes|
      modifies this
      ensures Valid() && fresh(grad) && r == |nodes| - 1
      ensures nodes[r].data == x - old(nodes[a].data)
      ensures nodes == old(nodes) + [Node(-1.0, Leaf), Node(-old(nodes[a].data), Op.Mul(a, |old(nodes)|)),
                                     Node(x, Leaf), Node(nodes[r].data, Op.Add(|old(nodes)| + 1, |old(nodes)| + 2))]
      ensures grad[..] == old(grad[..]) + Zeros(4)
    {
      var n := Neg(a);
      r := RAdd(n, x);
    }

    /**
     * `__truediv__`: `self * other ** -1`. A value divisor goes through
     * `__pow__`; a number divisor is raised by Python's own `**`.
     */
    method Div(a: nat, other: Arg) returns (r: nat)
      requires Valid() && a < |nodes| && Has(other)
      modifies this
      ensures Valid() && fresh(grad) && r == |nodes| - 1
      ensures other.Num? ==>
        nodes == old(nodes) + [Node(Power(math, other.x, -1.0), Leaf), Node(nodes[r].data, Op.Mul(a, |old(nodes)|))]
      ensures other.Ref? ==>
        nodes == old(nodes) + [Node(Power(math, old(nodes[other.id].data), -1.0), Op.Pow(other.id, -1.0)),
                               Node(nodes[r].data, Op.Mul(a, |old(nodes)|))]
      ensures grad[..] == old(grad[..]) + Zeros(2)
    {
      if other.Num? {
        r := Mul(a, Num(Power(math, other.x, -1.0)));
      } else {
        var p := Pow(other.id, Num(-1.0));
        r := Mul(a, Ref(p.value));
      }
    }

    /**
     * `node._backward()`: the closure the node's operation installed. A leaf's
     * closure does nothing; the others are the methods below.
     */
    method LocalBackward(v: nat)
      requires Acyclic(nodes) && grad.Length == |nodes| && v < |nodes|
      modifies grad
      ensures grad[..] == Rule(math, nodes, old(grad[..]), v)
    {
      match nodes[v].op {
      case Leaf =>
      case Add(_, _) => AddBackward(v);
      case Mul(_, _) => MulBackward(v);
      case Pow(_, _) => PowBackward(v);
      case Tanh(_) => TanhBackward(v);
      case Relu(_) => ReluBackward(v);
      case Exp(_) => ExpBackward(v);
      }
      RuleByEntries(math, nodes, old(grad[..]), v, grad[..], old(grad[v]));
    }

    /** The closure of `__add__`: each operand gains `out.grad`. */
    method AddBackward(v: nat)
      requires Acyclic(nodes) && grad.Length == |nodes| && v < |nodes| && nodes[v].op.Add?
      modifies grad
      ensures forall k :: 0 <= k < grad.Length ==> grad[k] == old(grad[k]) + Sent(math, nodes, v, k, old(grad[v]))
    {
      assert Below(nodes[v].op, v);
      var a, b := nodes[v].op.a, nodes[v].op.b;
      grad[a] := grad[a] + grad[v];
      grad[b] := grad[b] + grad[v];
      forall k | 0 <= k < grad.Length
        ensures grad[k] == old(grad[k]) + Sent(math, nodes, v, k, old(grad[v]))
      {
        var x := if a == k then 1.0 else 0.0;
        var y := if b == k then 1.0 else 0.0;
        assert Partial(math, nodes, v, k) == x + y;
        assert grad[k] == old(grad[k]) + x * old(grad[v]) + y * old(grad[v]);
        assert (x + y) * old(grad[v]) == x * old(grad[v]) + y * old(grad[v]);
      }
    }

    /** The closure of `__mul__`: each operand gains the other's data times `out.grad`. */
    method MulBackward(v: nat)
      requires Acyclic(nodes) && grad.Length == |nodes| && v < |nodes| && nodes[v].op.Mul?
      modifies grad
      ensures forall k :: 0 <= k < grad.Length ==> grad[k] == old(grad[k]) + Sent(math, nodes, v, k, old(grad[v]))
    {
      assert Below(nodes[v].op, v);
      var a, b := nodes[v].op.a, nodes[v].op.b;
      grad[a] := grad[a] + nodes[b].data * grad[v];
      grad[b] := grad[b] + nodes[a].data * grad[v];
      forall k | 0 <= k < grad.Length
        ensures grad[k] == old(grad[k]) + Sent(math, nodes, v, k, old(grad[v]))
      {
        var x := if a == k then nodes[b].data else 0.0;
        var y := if b == k then nodes[a].data else 0.0;
        assert Partial(math, nodes, v, k) == x + y;
        assert grad[k] == old(grad[k]) + x * old(grad[v]) + y * old(grad[v]);
        assert (x + y) * old(grad[v]) == x * old(grad[v]) + y * old(grad[v]);
      }
    }

    /** The closure of `__pow__`: the operand gains `p * x ** (p - 1) * out.grad`. */
    method PowBackward(v: nat)
      requires Acyclic(nodes) && grad.Length == |nodes| && v < |nodes| && nodes[v].op.Pow?
      modifies grad
      ensures forall k :: 0 <= k < grad.Length ==> grad[k] == old(grad[k]) + Sent(math, nodes, v, k, old(grad[v]))
    {
      assert Below(nodes[v].op, v);
      var a, p := nodes[v].op.a, nodes[v].op.p;
      grad[a] := grad[a] + PowSlope(math, nodes[a].data, p) * grad[v];
      forall k | 0 <= k < grad.Length
        ensures grad[k] == old(grad[k]) + Sent(math, nodes, v, k, old(grad[v]))
      {
        if k != a {
          assert Partial(math, nodes, v, k) == 0.0;
        }
      }
    }

    /** The closure of `tanh`: the operand gains `(1 - t ** 2) * out.grad`, `t` the output. */
    method TanhBackward(v: nat)
      requires Acyclic(nodes) && grad.Length == |nodes| && v < |nodes| && nodes[v].op.Tanh?
      modifies grad
      ensures forall k :: 0 <= k < grad.Length ==> grad[k] == old(grad[k]) + Sent(math, nodes, v, k, old(grad[v]))
    {
      assert Below(nodes[v].op, v);
      var a, t := nodes[v].op.a, nodes[v].data;
      grad[a] := grad[a] + (1.0 - t * t) * grad[v];
      forall k | 0 <= k < grad.Length
        ensures grad[k] == old(grad[k]) + Sent(math, nodes, v, k, old(grad[v]))
      {
        if k == a {
          assert Partial(math, nodes, v, k) == (1.0 - t * t);
          assert grad[k] == old(grad[k]) + (1.0 - t * t) * old(grad[v]);
        } else {
          assert Partial(math, nodes, v, k) == 0.0;
        }
      }
    }

    /** The closure of `relu`: the operand gains `out.grad` where its data is positive, nothing otherwise. */
    method ReluBackward(v: nat)
      requires Acyclic(nodes) && grad.Length == |nodes| && v < |nodes| && nodes[v].op.Relu?
      modifies grad
      ensures forall k :: 0 <= k < grad.Length ==> grad[k] == old(grad[k]) + Sent(math, nodes, v, k, old(grad[v]))
    {
      assert Below(nodes[v].op, v);
      var a := nodes[v].op.a;
      grad[a] := grad[a] + (if nodes[a].data > 0.0 then 1.0 else 0.0) * grad[v];
      forall k | 0 <= k < grad.Length
        ensures grad[k] == old(grad[k]) + Sent(math, nodes, v, k, old(grad[v]))
      {
        if k == a {
          assert Partial(math, nodes, v, k) == (if nodes[a].data > 0.0 then 1.0 else 0.0);
          assert grad[k] == old(grad[k]) + (if nodes[a].data > 0.0 then 1.0 else 0.0) * old(grad[v]);
        } else {
          assert Partial(math, nodes, v, k) == 0.0;
        }
      }
    }

    /** The closure of `exp`: the operand gains the output times `out.grad`. */
    method ExpBackward(v: nat)
      requires Acyclic(nodes) && grad.Length == |nodes| && v < |nodes| && nodes[v].op.Exp?
      modifies grad
      ensures forall k :: 0 <= k < grad.Length ==> grad[k] == old(grad[k]) + Sent(math, nodes, v, k, old(grad[v]))
    {
      assert Below(nodes[v].op, v);
      var a := nodes[v].op.a;
      grad[a] := grad[a] + nodes[v].data * grad[v];
      forall k | 0 <= k < grad.Length
        ensures grad[k] == old(grad[k]) + Sent(math, nodes, v, k, old(grad[v]))
      {
        if k == a {
          assert Partial(math, nodes, v, k) == nodes[v].data;
          assert grad[k] == old(grad[k]) + nodes[v].data * old(grad[v]);
        } else {
          assert Partial(math, nodes, v, k) == 0.0;
        }
      }
    }

    /**
     * `backward`: sort the nodes reachable from `root`, seed `root` with 1.0
     * (overwriting its gradient) and run each node's rule in reverse order.
     * The gradients then solve the adjoint equations over the reachable nodes,
     * starting from the old gradients with the seed in place: other nodes add
     * to what they held, and unreachable nodes keep it.
     */
    method Backward(root: nat)
      requires Acyclic(nodes) && grad.Length == |nodes| && root < |nodes|
      modifies grad
      ensures Adjoint(math, nodes, Reach(nodes, root), old(grad[..])[root := 1.0], grad[..])
      ensures grad[root] == 1.0
      ensures forall u :: 0 <= u < |nodes| && u !in Reach(nodes, root) ==> grad[u] == old(grad[u])
    {
      var topo := TopoSort(nodes, root);
      grad[root] := 1.0;
      ghost var seeded := grad[..];
      var i := |topo|;
      while i > 0
        invariant 0 <= i <= |topo|
        invariant grad[..] == Backprop(math, nodes, seeded, topo[i..])
      {
        i := i - 1;
        LocalBackward(topo[i]);
        assert topo[i..][1..] == topo[i + 1..];
      }
      assert topo[0..] == topo;
      BackpropSolvesAdjoint(math, nodes, seeded, topo);
      AdjointAtRoot(math, nodes, root, seeded, grad[..]);
      forall u | 0 <= u < |nodes| && u !in Reach(nodes, root)
        ensures grad[u] == old(grad[u])
      {
        AdjointOutside(math, nodes, root, seeded, grad[..], u);
      }
    }
  }
}
