/**
 * The nodes of micrograd's computation graph, stored in an arena.
 *
 * A Python `Value` object becomes an index into a sequence of nodes. Each node
 * keeps its forward `data` and an operation tag that names its operands by
 * index; the per-node `_backward` closure becomes a dispatch on that tag.
 * Because every operation appends a fresh node that refers only to nodes
 * already present, operand indices are smaller than the user's own index,
 * which is how acyclicity is stated here.
 */
module Values {

  /** `math.exp`: left uninterpreted except that it is always positive. */
  type Exponential = f: real -> real | forall x :: f(x) > 0.0 witness (x: real) => 1.0

  /** The numeric primitives the engine borrows from Python: `math.exp` and `**` on numbers. */
  datatype Math = Math(exp: Exponential, pow: (real, real) -> real)

  /** An operand as the operators accept it: another value (by id) or a plain number. */
  datatype Arg = Num(x: real) | Ref(id: nat)

  /** How a node was produced; the operands are node ids. */
  datatype Op =
    | Leaf
    | Add(a: nat, b: nat)
    | Mul(a: nat, b: nat)
    | Pow(a: nat, p: real)
    | Tanh(a: nat)
    | Relu(a: nat)
    | Exp(a: nat)

  datatype Node = Node(data: real, op: Op)

  /**
   * `_prev`: the SET of operands. A node has at most two, none exactly
   * when it is a leaf, and `x + x` or `x * x` has the single operand `x`.
   */
  function Prev(op: Op): (s: set<nat>)
    ensures |s| <= 2
    ensures op.Leaf? <==> s == {}
    ensures (op.Add? || op.Mul?) ==> (|s| == 1 <==> op.a == op.b)
  {
    match op
    case Leaf => {}
    case Add(a, b) => {a, b}
    case Mul(a, b) => {a, b}
    case Pow(a, _) => {a}
    case Tanh(a) => {a}
    case Relu(a) => {a}
    case Exp(a) => {a}
  }

  /** Every operand of `op` is an id below `k`. */
  predicate Below(op: Op, k: nat)
    ensures Below(op, k) <==> forall c :: c in Prev(op) ==> c < k
  {
    match op
    case Leaf => true
    case Add(a, b) => assert a in Prev(op) && b in Prev(op); a < k && b < k
    case Mul(a, b) => assert a in Prev(op) && b in Prev(op); a < k && b < k
    case Pow(a, _) => assert a in Prev(op); a < k
    case Tanh(a) => assert a in Prev(op); a < k
    case Relu(a) => assert a in Prev(op); a < k
    case Exp(a) => assert a in Prev(op); a < k
  }

  /** Every operand was allocated before the node that uses it. */
  ghost predicate Acyclic(nodes: seq<Node>) {
    forall i :: 0 <= i < |nodes| ==> Below(nodes[i].op, i)
  }

  /** Forward value of `tanh` as `Value.tanh` computes it, through `exp(2n)`. */
  function TanhOf(m: Math, n: real): (t: real)
    ensures -1.0 < t < 1.0
  {
    var e := m.exp(2.0 * n);
    (e - 1.0) / (e + 1.0)
  }

  /** Forward value of `relu`: zero for negative input, the input otherwise. */
  function ReluOf(x: real): (r: real)
    ensures r >= 0.0 && r >= x
    ensures r == x || r == 0.0
  {
    if x < 0.0 then 0.0 else x
  }

  /** The forward value of a node agrees with its operation applied to its operands' data. */
  ghost predicate Computes(m: Math, nodes: seq<Node>, n: Node)
    requires Below(n.op, |nodes|)
  {
    match n.op
    case Leaf => true
    case Add(a, b) => n.data == nodes[a].data + nodes[b].data
    case Mul(a, b) => n.data == nodes[a].data * nodes[b].data
    case Pow(a, p) => n.data == Power(m, nodes[a].data, p)
    case Tanh(a) => n.data == TanhOf(m, nodes[a].data)
    case Relu(a) => n.data == ReluOf(nodes[a].data)
    case Exp(a) => n.data == m.exp(nodes[a].data)
  }

  /** A node's forward value stays correct when the arena grows. */
  lemma ComputesExtend(m: Math, before: seq<Node>, after: seq<Node>, n: Node)
    requires before <= after && Below(n.op, |before|)
    ensures Computes(m, before, n) == Computes(m, after, n)
  {
  }

  /** An arena as the operators build it: acyclic, and every node holds its forward value. */
  ghost predicate WellFormed(m: Math, nodes: seq<Node>) {
    && Acyclic(nodes)
    && forall i :: 0 <= i < |nodes| ==> Computes(m, nodes, nodes[i])
  }

  /** `x ** p` on numbers, as the host computes it. */
  function Power(m: Math, x: real, p: real): real {
    m.pow(x, p)
  }

  /** The derivative of `x ** p` in `x`, as the rule of `__pow__` writes it: `p * x ** (p - 1)`. */
  function PowSlope(m: Math, x: real, p: real): real {
    p * Power(m, x, p - 1.0)
  }

  /**
   * The local partial derivative of node `w` with respect to node `u`, as the
   * backward rule of `w` applies it: the rule adds `Partial(w, u) * grad[w]` to
   * `grad[u]`. An operand used twice (`x + x`, `x * x`) receives both terms.
   */
  function Partial(m: Math, nodes: seq<Node>, w: nat, u: nat): (d: real)
    requires Acyclic(nodes) && w < |nodes|
  {
    var n := nodes[w];
    match n.op
    case Leaf => 0.0
    case Add(a, b) => (if a == u then 1.0 else 0.0) + (if b == u then 1.0 else 0.0)
    case Mul(a, b) =>
      (if a == u then nodes[b].data else 0.0) + (if b == u then nodes[a].data else 0.0)
    case Pow(a, p) => if a == u then PowSlope(m, nodes[a].data, p) else 0.0
    case Tanh(a) => if a == u then 1.0 - n.data * n.data else 0.0
    case Relu(a) => if a == u then (if nodes[a].data > 0.0 then 1.0 else 0.0) else 0.0
    case Exp(a) => if a == u then n.data else 0.0
  }

  /** What node `w`'s rule adds to `grad[u]` when `w.grad` is `out`. */
  function Sent(m: Math, nodes: seq<Node>, w: nat, u: nat, out: real): real
    requires Acyclic(nodes) && w < |nodes|
  {
    Partial(m, nodes, w, u) * out
  }

  /** A node never depends on itself or on anything allocated after it. */
  lemma PartialOfLater(m: Math, nodes: seq<Node>, w: nat, u: nat)
    requires Acyclic(nodes) && w < |nodes| && w <= u
    ensures Partial(m, nodes, w, u) == 0.0
  {
    assert Below(nodes[w].op, w);
  }

  /** The nodes reachable from `v` through `_prev`, `v` included. */
  ghost function Reach(nodes: seq<Node>, v: nat): (r: set<nat>)
    requires Acyclic(nodes) && v < |nodes|
    ensures v in r
    ensures forall x :: x in r ==> x <= v
    decreases v
  {
    {v} + set c, x | c in Prev(nodes[v].op) && x in Reach(nodes, c) :: x
  }

  /** Reachability is closed under taking operands. */
  lemma ReachClosed(nodes: seq<Node>, root: nat, w: nat, c: nat)
    requires Acyclic(nodes) && root < |nodes|
    requires w in Reach(nodes, root) && c in Prev(nodes[w].op)
    ensures c in Reach(nodes, root)
  {
    ReachTransitive(nodes, root, w);
    assert c in Reach(nodes, c);
  }

  /** Whatever is reachable from a reachable node is reachable. */
  lemma {:induction false} ReachTransitive(nodes: seq<Node>, root: nat, w: nat)
    requires Acyclic(nodes) && root < |nodes|
    requires w in Reach(nodes, root)
    ensures Reach(nodes, w) <= Reach(nodes, root)
    decreases root
  {
    if w != root {
      var c :| c in Prev(nodes[root].op) && w in Reach(nodes, c);
      ReachTransitive(nodes, c, w);
    }
  }
}
