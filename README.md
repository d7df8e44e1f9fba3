# micrograd's `Value` engine, modelled in Dafny

This project models the scalar reverse-mode automatic differentiation engine of
micrograd (`micrograd/engine.py`). Every arithmetic operation on a `Value`
allocates a new node that remembers its operands (`_prev`) and a local backward
rule. `backward()` sorts the nodes reachable from the output depth-first, seeds
the output's `grad` with 1.0 and runs every node's rule in reverse topological
order.

The model keeps that structure:

- `values.dfy` (module `Values`) holds the nodes. A `Value` is an index into
  an arena of nodes. Each node keeps its `data` and an operation tag whose
  operands are smaller indices, so the graph is acyclic by construction. It
  also defines:
  - the forward values of `tanh` and `relu`;
  - the local partial derivative each backward rule applies (`Partial`,
    with multiplicity for `x + x` and `x * x`);
  - reachability through `_prev` (`Reach`).
- `topo.dfy` (module `Topo`) is `build_topo` as imperative code. It threads
  the `visited` set and the `topo` list through the recursion. The loop over
  `v._prev` picks its next operand with `:|`, so every property holds for
  every iteration order of the set. It proves that the result lists each
  reachable node exactly once, with operands before their users.
- `backprop.dfy` (module `Gradients`) states what the backward pass computes:
  - `Rule` is one node's `_backward`;
  - `Backprop` runs the rules of an order from last to first;
  - `Adjoint` gives the adjoint equations (the chain rule).
  It proves that reverse topological order solves these equations, and that
  they have exactly one solution. So the result does not depend on which
  topological order the search produced.
- `engine.dfy` (module `Engine`) is the `Value` class as a `Graph` class.
  `nodes` is the arena and `grad` the array of `grad` fields. It has:
  - one method per forward operation and per derived operator;
  - one method per backward closure, each proved against `Rule`;
  - `Backward`, proved to leave gradients that solve the adjoint equations
    seeded with 1.0 at the root.
- `scenarios.dfy` (module `Scenarios`) builds small expressions the way a
  user writes them and proves the gradients `backward` leaves:
  - `x + x` gives 2;
  - `a * b` gives each leaf the other's data;
  - `relu` at 0 gives 0;
  - a second `backward` accumulates into the leaves;
  - unreachable nodes keep their gradient;
  - `a - b`, `a / b` and a `tanh` neuron give the expected gradients.

`math.exp` and `**` on numbers are parameters of the model (`Math`). `exp`
is only known to be positive and `**` is not interpreted at all. `data` and
`grad` are mathematical reals.

Three behaviours of `engine.py` worth knowing when reading the model:

- **No domain check on `**`.** `__pow__` (micrograd/engine.py:27-35) checks
  only that the exponent is an `int` or a `float`, so a negative base with a
  fractional exponent raises no error there.
- **`x ** 0` at `x == 0`.** The backward rule (micrograd/engine.py:32)
  evaluates `0 * 0 ** -1`, and `0 ** -1` raises `ZeroDivisionError`. The
  model's `**` is total, so it does not show this error.
- **No `__rtruediv__`.** There is no `__rtruediv__`, so `number / value` is
  not an operation of the engine.

## Model

| member | source | states |
|---|---|---|
| Values.Prev | micrograd/engine.py:11 | `set(_children)` has at most two elements, is empty exactly for a leaf, and for `+` and `*` collapses to a single element exactly when both operands are the same node (`x + x`) |
| Values.TanhOf | micrograd/engine.py:48-50 | `tanh` computed as `(exp(2n) - 1) / (exp(2n) + 1)` lies strictly between -1 and 1 |
| Values.ReluOf | micrograd/engine.py:60 | `relu`'s output is never negative, is at least the input, and is either the input or 0 |
| Values.PartialOfLater | micrograd/engine.py:8-14 | a node's rule sends nothing to itself or to any node created after it, because operands exist before their user |
| Values.Reach | micrograd/engine.py:84-92 | the nodes `build_topo(v)` can reach contain `v` and only nodes created no later than `v` |
| Values.ReachClosed | micrograd/engine.py:87-88 | an operand of a reachable node is reachable |
| Values.ReachTransitive | micrograd/engine.py:87-88 | whatever a reachable node reaches, the root reaches |
| Topo.OrderCoversReach | micrograd/engine.py:85-89 | an operands-first list that holds a node already holds everything reachable from it, so skipping a visited node loses nothing |
| Topo.AppendKeepsOrder | micrograd/engine.py:89 | appending a node whose operands are all listed keeps every operand before its user |
| Topo.BuildTopo | micrograd/engine.py:84-90 | `build_topo(v)` extends `topo` (the old list is a prefix) by exactly the reachable nodes not yet listed, without repeats and operands first, and marks them visited; a node not yet visited ends up as the last entry, since it is appended after its operands |
| Topo.AlreadyVisited | micrograd/engine.py:85 | a node already in `visited` is listed with everything it reaches, so returning at once changes nothing |
| Topo.FinishVisit | micrograd/engine.py:89 | after the operands are visited, appending `v` keeps the prefix, adds no repeat, keeps operands first and lists exactly what `v` reaches |
| Topo.VisitOperands | micrograd/engine.py:87-88 | the loop over `v._prev`, in any order, lists everything each operand reaches, only nodes `v` reaches and never `v` itself |
| Topo.VisitedOperand | micrograd/engine.py:88 | one `build_topo(child)` call keeps the list's prefix and `v` out of the list, and covers what `child` reaches |
| Topo.TopoSort | micrograd/engine.py:81-92 | from an empty list and visited set, `build_topo(root)` lists every node reachable from the root exactly once, each after its operands, and the root is the last entry, so the reversed walk runs the root's rule first |
| Gradients.Rule | micrograd/engine.py:20-22 | one node's rule keeps one gradient per node; what it adds to each entry is stated by the closures below (`Engine.Graph.LocalBackward`) |
| Gradients.Backprop | micrograd/engine.py:94-95 | running the rules of `reversed(topo)` keeps one gradient per node |
| Gradients.BackpropUntouched | micrograd/engine.py:94-95 | a node that is no operand of any rule run keeps its gradient |
| Gradients.BackpropSplit | micrograd/engine.py:94-95 | running the rules of `a + b` in reverse runs those of `b`, then those of `a` |
| Gradients.NotOperandOfEarlier | micrograd/engine.py:84-92 | in a topological order without repeats, no node is an operand of itself or of an earlier node |
| Gradients.RuleSeesFinalGrad | micrograd/engine.py:94-95 | when the loop reaches a node, its gradient already holds its final value: no rule still to run writes to it |
| Gradients.UpstreamInsert | micrograd/engine.py:94-95 | adding one user to the set of rules run adds exactly that user's contribution |
| Gradients.UpstreamAgree | micrograd/engine.py:94-95 | what a node receives depends only on the gradients of nodes created after it |
| Gradients.UpstreamNone | micrograd/engine.py:94-95 | a node that none of the rules run uses receives nothing |
| Gradients.UpstreamNext | micrograd/engine.py:94-95 | one more candidate user adds its partial times its gradient when its rule runs, nothing otherwise |
| Gradients.BackpropSolvesAdjoint | micrograd/engine.py:93-95 | running the rules of a topological order without repeats, last to first, yields gradients that satisfy the chain rule over the nodes of that order |
| Gradients.AdjointStep | micrograd/engine.py:94-95 | running one more rule first, on its final gradient, extends a solution of the chain rule by that node |
| Gradients.LastRuleFirst | micrograd/engine.py:94-95 | the last node of the order (the root, by `Topo.TopoSort`) runs its rule first, on its seeded gradient, which no later rule changes |
| Gradients.AdjointUnique | micrograd/engine.py:78-95 | the chain-rule equations have at most one solution |
| Gradients.OrderIrrelevant | micrograd/engine.py:87 | any two topological orders of the same nodes give the same gradients, so the iteration order of `_prev` does not matter |
| Gradients.AdjointAtRoot | micrograd/engine.py:93 | no reachable node sends anything to the root, so it keeps its seed |
| Gradients.AdjointOutside | micrograd/engine.py:94-95 | a node the root does not reach keeps its gradient |
| Engine.Graph.Push | micrograd/engine.py:8-14 | a new node is appended with `grad` 0.0; everything before it is unchanged and the arena stays well formed |
| Engine.Graph.Constant | micrograd/engine.py:8-14 | `Value(x)` is a fresh leaf holding `x` with `grad` 0.0 |
| Engine.Graph.Lift | micrograd/engine.py:17 | a number operand becomes a fresh leaf; a value operand is used as it is and nothing is allocated |
| Engine.Graph.Add | micrograd/engine.py:16-25 | appends the wrapped operand if it is a number, then a `+` node holding the sum of the operands' data, with `grad` 0.0 |
| Engine.Graph.Mul | micrograd/engine.py:37-46 | appends the wrapped operand if it is a number, then a `*` node of the two operands, with `grad` 0.0 |
| Engine.Graph.Pow | micrograd/engine.py:27-35 | a value exponent is refused and the graph is unchanged; a number exponent appends a `**` node holding `data ** p` |
| Engine.Graph.Tanh | micrograd/engine.py:48-51 | appends a `tanh` node whose data is strictly between -1 and 1 |
| Engine.Graph.Relu | micrograd/engine.py:59-60 | appends a `relu` node whose data is never negative and equals a non-negative input |
| Engine.Graph.Exp | micrograd/engine.py:68-70 | appends an `exp` node whose data is positive |
| Engine.Graph.RAdd | micrograd/engine.py:100-101 | `number + value` is `value + number`: a leaf for the number, then a `+` node |
| Engine.Graph.RMul | micrograd/engine.py:97-98 | `number * value` is `value * number`: a leaf for the number, then a `*` node |
| Engine.Graph.Neg | micrograd/engine.py:103-104 | `-a` is `a * -1`: a leaf holding -1, then a `*` node holding `-a.data`; no new rule |
| Engine.Graph.Sub | micrograd/engine.py:106-107 | `a - b` holds `a.data - b.data`. It is built as `a + (-b)`: a number is negated directly, a value through `__neg__` |
| Engine.Graph.RSub | micrograd/engine.py:109-110 | `number - a` holds `x - a.data`, built as `(-a) + number` through `__neg__` and `__radd__` |
| Engine.Graph.Div | micrograd/engine.py:112-113 | `a / b` is `a * b ** -1`: a value divisor through `__pow__`, a number divisor as a leaf holding `b ** -1` |
| Engine.Graph.LocalBackward | micrograd/engine.py:14 | `node._backward()` changes the gradient vector exactly as the node's rule does; a leaf's rule changes nothing |
| Engine.Graph.AddBackward | micrograd/engine.py:20-22 | each operand gains `out.grad`, twice for `x + x`; nothing else changes |
| Engine.Graph.MulBackward | micrograd/engine.py:41-43 | each operand gains the other's data times `out.grad`, both terms for `x * x`; nothing else changes |
| Engine.Graph.PowBackward | micrograd/engine.py:31-32 | the operand gains `p * data ** (p - 1) * out.grad`; nothing else changes |
| Engine.Graph.TanhBackward | micrograd/engine.py:53-54 | the operand gains `(1 - t * t) * out.grad`, with `t` the output; nothing else changes |
| Engine.Graph.ReluBackward | micrograd/engine.py:62-63 | the operand gains `out.grad` when its data is positive and nothing otherwise; nothing else changes |
| Engine.Graph.ExpBackward | micrograd/engine.py:72-73 | the operand gains the output's data times `out.grad`; nothing else changes |
| Engine.Graph.Backward | micrograd/engine.py:78-95 | the root's `grad` is overwritten with 1.0. The gradients solve the chain rule over the reachable nodes, starting from the old gradients with that seed. Unreachable nodes keep their gradient |
| Scenarios.SelfSumAdjoint | micrograd/engine.py:20-22 | for `x + x` the leaf receives twice the output's gradient |
| Scenarios.SelfSum | micrograd/engine.py:11 | `(x + x).backward()` leaves `x.grad == 2`, although `_prev` holds `x` once |
| Scenarios.SumAdjoint | micrograd/engine.py:20-22 | each leaf of `a + b` receives the sum's gradient |
| Scenarios.Sum | micrograd/engine.py:16-25 | `(a + b).backward()` on fresh leaves gives both gradients 1 |
| Scenarios.SumTwice | micrograd/engine.py:93-95 | a second `backward()` resets the root to 1 and the leaves accumulate to 2 |
| Scenarios.ProductAdjoint | micrograd/engine.py:41-43 | each leaf of `a * b` receives the other leaf's data times the product's gradient |
| Scenarios.Product | micrograd/engine.py:37-46 | `(a * b).backward()` gives `a.grad == b.data` and `b.grad == a.data` |
| Scenarios.SquareAdjoint | micrograd/engine.py:41-43 | for `x * x` the leaf receives both product-rule terms |
| Scenarios.Square | micrograd/engine.py:37-46 | `(x * x).backward()` gives `x.grad == 2 * x.data` |
| Scenarios.ReluAdjoint | micrograd/engine.py:62-63 | the input of `relu` receives the output's gradient only for positive data |
| Scenarios.Relu | micrograd/engine.py:59-66 | `relu` then `backward()`: output and input gradient as the source computes them, both 0 at input 0 |
| Scenarios.LeafBackward | micrograd/engine.py:93 | `backward()` on a leaf sets only its own gradient, to 1 |
| Scenarios.Unused | micrograd/engine.py:84-95 | a node the output does not use keeps `grad` 0 while the output's operand receives 1 |
| Scenarios.UnusedAdjoint | micrograd/engine.py:20-22 | with an unused fourth node present, the first leaf still receives the sum's gradient |
| Scenarios.PowOfValue | micrograd/engine.py:28 | `a ** b` with a value `b` is refused and builds no node |
| Scenarios.DifferenceAdjoint | micrograd/engine.py:106-107 | `a - b` as `a + b * -1`: `a` receives the output's gradient, `b` minus the product's |
| Scenarios.Difference | micrograd/engine.py:103-107 | `(a - b).backward()` gives `a.grad == 1` and `b.grad == -1` |
| Scenarios.QuotientUpstream | micrograd/engine.py:112-113 | what each node of `a * b ** -1` receives from its users |
| Scenarios.QuotientAdjoint | micrograd/engine.py:112-113 | the chain rule through `a * b ** -1` |
| Scenarios.QuotientSeeded | micrograd/engine.py:31-32 | seeded at the quotient, `a` receives `b ** -1` and `b` receives `a * (-1 * b ** -2)` |
| Scenarios.Quotient | micrograd/engine.py:112-113 | `(a / b).backward()` gives `a.grad == b.data ** -1` and `b.grad == a.data * (-1 * b.data ** -2)` |
| Scenarios.BuildQuotient | micrograd/engine.py:112-113 | `a / b` on fresh leaves builds the leaves, `b ** -1` and the product, all with `grad` 0 |
| Scenarios.NeuronUpstream | micrograd/engine.py:53-54 | what each node of `tanh(w * x + b)` receives from its users |
| Scenarios.NeuronOutput | micrograd/engine.py:53-54 | the sum node receives `(1 - t * t)` times the output's gradient |
| Scenarios.NeuronSum | micrograd/engine.py:20-22 | the product and the bias receive the sum's gradient |
| Scenarios.NeuronProduct | micrograd/engine.py:41-43 | each factor receives the other factor's data times the product's gradient |
| Scenarios.NeuronAdjoint | micrograd/engine.py:78-95 | the chain rule through the neuron's three operations |
| Scenarios.NeuronSeeded | micrograd/engine.py:93-95 | seeded at the output, `b.grad == 1 - t * t`, `w.grad == x * b.grad` and `x.grad == w * b.grad` |
| Scenarios.Neuron | micrograd/engine.py:48-57 | `(w * x + b).tanh().backward()` gives the output `tanh(w * x + b)` and those three gradients |
| Scenarios.BuildNeuron | micrograd/engine.py:37-57 | the neuron on fresh leaves: six nodes, output `tanh(w * x + b)`, all gradients 0 |
| Scenarios.NeuronForward | micrograd/engine.py:37-51 | a well-formed neuron arena holds `tanh(w * x + b)` at its output |

## Left out

- `micrograd/nn.py` is not part of this model. It only composes `Value` operations and draws random weights.
- Floating point. `data` and `grad` are reals, so rounding, `inf` and `nan` are not modelled.
- The overflow of `math.exp` for large arguments (in `exp` and inside `tanh`) is not modelled; `exp` is a total positive function.
- Host `**` is a parameter with no properties. That leaves out its `ZeroDivisionError` for a zero base with a negative exponent (including the backward rule of `x ** 0` at `x == 0`, and `a / b` with `b.data == 0`) and its complex results for a negative base with a fractional exponent.
- Engine.Graph.Pow: the `AssertionError` for an exponent that is not an `int` or `float` becomes the result `Err(InvalidExponent)`. Only a `Value` exponent is distinguished; other Python types do not exist in the model.
- `label`, `_op` and `__repr__` are left out; they are only used for display.
- Python's recursion limit on `build_topo` for deep graphs is not modelled.
- Object identity and per-node closures: a node is an index into one arena, and its closure is selected by its operation tag. All values of one computation live in one `Graph`. When a number operand is wrapped, its leaf is allocated in that graph.
- `grad` is a fresh array, one entry longer, after each new node. Nothing outside a `Graph` holds the array.
- Engine.Graph.Mul: the product `a.data * b.data` of the new node is stated through `Valid()` (every node holds its operation applied to its operands) rather than as a separate clause.
- Engine.Graph.RMul: the data of the new node is stated through `Valid()` in the same way.
- Engine.Graph.Div: the data of the new node is stated through `Valid()` in the same way.
