/**
 * The depth-first topological sort inside `Value.backward` (`build_topo`).
 *
 * The Python function closes over a `topo` list and a `visited` set that it
 * grows in place; here they are passed in and handed back. It iterates over
 * `v._prev`, a set whose iteration order Python does not fix, so the loop
 * below picks each next operand with `:|` and every property is proved for
 * every such order.
 */
module Topo {
  import opened Values

  /** The ids that occur in a sequence. */
  ghost function Elems(s: seq<nat>): set<nat> {
    set x | x in s
  }

  /** No id occurs twice. */
  ghost predicate NoDup(s: seq<nat>) {
    forall i, j :: 0 <= i < j < |s| ==> s[i] != s[j]
  }

  /** Every entry is a node of the arena and all its operands occur before it. */
  ghost predicate OperandsFirst(nodes: seq<Node>, s: seq<nat>) {
    forall i :: 0 <= i < |s| ==> s[i] < |nodes| && forall c :: c in Prev(nodes[s[i]].op) ==> c in s[..i]
  }

  /** `s` lists the nodes reachable from `root`, each once, operands before users. */
  ghost predicate TopoOrder(nodes: seq<Node>, root: nat, s: seq<nat>)
    requires Acyclic(nodes) && root < |nodes|
  {
    OperandsFirst(nodes, s) && NoDup(s) && Elems(s) == Reach(nodes, root)
  }

  /** An order that lists a node already lists everything reachable from it. */
  lemma {:induction false} OrderCoversReach(nodes: seq<Node>, s: seq<nat>, v: nat)
    requires Acyclic(nodes) && v < |nodes| && OperandsFirst(nodes, s) && v in s
    ensures Reach(nodes, v) <= Elems(s)
    decreases v
  {
    var i :| 0 <= i < |s| && s[i] == v;
    forall c | c in Prev(nodes[v].op)
      ensures Reach(nodes, c) <= Elems(s)
    {
      assert c in s[..i];
      assert Below(nodes[v].op, v);
      OrderCoversReach(nodes, s, c);
    }
  }

  /** Appending a node whose operands are all present keeps operands first. */
  lemma AppendKeepsOrder(nodes: seq<Node>, s: seq<nat>, v: nat)
    requires OperandsFirst(nodes, s) && v < |nodes|
    requires forall c :: c in Prev(nodes[v].op) ==> c in s
    ensures OperandsFirst(nodes, s + [v])
  {
    var t := s + [v];
    forall i | 0 <= i < |t|
      ensures t[i] < |nodes| && forall c :: c in Prev(nodes[t[i]].op) ==> c in t[..i]
    {
      if i < |s| {
        assert t[..i] == s[..i];
      } else {
        assert t[..i] == s;
      }
    }
  }

  /** What a DFS step may assume about the nodes it has seen so far. */
  ghost predicate Pending(nodes: seq<Node>, v: nat, visited: set<nat>, topo: seq<nat>) {
    && OperandsFirst(nodes, topo) && NoDup(topo)
    && Elems(topo) <= visited
    && forall x :: x in visited && x !in Elems(topo) ==> x > v
  }

  /**
   * `build_topo(v)`: if `v` is not yet visited, mark it, visit each of its
   * operands, then append it. On entry every visited node that is not yet in
   * `topo` (a node still being explored further up the recursion) has an id
   * above `v`, so none of them is reachable from `v`.
   */
  method BuildTopo(nodes: seq<Node>, v: nat, visited: set<nat>, topo: seq<nat>)
    returns (visited': set<nat>, topo': seq<nat>)
    requires Acyclic(nodes) && v < |nodes|
    requires Pending(nodes, v, visited, topo)
    ensures |topo| <= |topo'| && topo'[..|topo|] == topo
    ensures Elems(topo') == Elems(topo) + Reach(nodes, v)
    ensures visited' == visited + Reach(nodes, v)
    ensures v !in visited ==> topo' != [] && topo'[|topo'| - 1] == v
    ensures NoDup(topo') && OperandsFirst(nodes, topo')
    decreases v, 1
  {
    if v in visited {
      AlreadyVisited(nodes, v, visited, topo);
      return visited, topo;
    }
    var t;
    visited', t := VisitOperands(nodes, v, visited + {v}, topo);
    FinishVisit(nodes, v, topo, t);
    Absorb(visited, v, Elems(topo), Elems(t), Reach(nodes, v));
    topo' := t + [v];
  }

  /** Adding what was found to the visited set, when the found part already visited is listed. */
  lemma Absorb(visited: set<nat>, v: nat, listed: set<nat>, found: set<nat>, reach: set<nat>)
    requires listed <= visited && found + {v} == listed + reach
    ensures visited + {v} + found == visited + reach
  {
  }

  /** A visited node is already listed together with everything reachable from it. */
  lemma AlreadyVisited(nodes: seq<Node>, v: nat, visited: set<nat>, topo: seq<nat>)
    requires Acyclic(nodes) && v < |nodes| && v in visited
    requires Pending(nodes, v, visited, topo)
    ensures Elems(topo) == Elems(topo) + Reach(nodes, v)
    ensures visited == visited + Reach(nodes, v)
  {
    assert v in Elems(topo);
    OrderCoversReach(nodes, topo, v);
  }

  /**
   * Appending `v` once its operands have been visited completes `build_topo(v)`.
   * (The order of the clauses matters to the solver: the operands-first fact
   * about the longer sequence is proved last.)
   */
  lemma FinishVisit(nodes: seq<Node>, v: nat, topo: seq<nat>, t: seq<nat>)
    requires Acyclic(nodes) && v < |nodes|
    requires OperandsFirst(nodes, t) && NoDup(t)
    requires |topo| <= |t| && t[..|topo|] == topo
    requires Elems(topo) <= Elems(t) <= Elems(topo) + Reach(nodes, v)
    requires v !in Elems(t)
    requires forall c :: c in Prev(nodes[v].op) ==> Reach(nodes, c) <= Elems(t)
    ensures (t + [v])[..|topo|] == topo
    ensures Elems(t) + {v} == Elems(t + [v]) == Elems(topo) + Reach(nodes, v)
    ensures NoDup(t + [v])
    ensures OperandsFirst(nodes, t + [v])
  {
    AppendKeepsPrefix(t, v, |topo|);
    AppendFresh(t, v);
    VisitedAll(nodes, v, Elems(topo), Elems(t));
    AppendVisited(nodes, v, t);
  }

  /** Appending leaves every prefix of the sequence in place. */
  lemma AppendKeepsPrefix(t: seq<nat>, v: nat, k: nat)
    requires k <= |t|
    ensures (t + [v])[..k] == t[..k]
  {
  }

  /** Once everything reachable from each operand is listed, `v` may follow. */
  lemma AppendVisited(nodes: seq<Node>, v: nat, t: seq<nat>)
    requires Acyclic(nodes) && v < |nodes| && OperandsFirst(nodes, t)
    requires forall c :: c in Prev(nodes[v].op) ==> Reach(nodes, c) <= Elems(t)
    ensures OperandsFirst(nodes, t + [v])
  {
    forall c | c in Prev(nodes[v].op)
      ensures c in t
    {
      assert c in Reach(nodes, c);
    }
    AppendKeepsOrder(nodes, t, v);
  }

  /** The ids found while visiting `v`'s operands, with `v` itself, are what is reachable from `v`. */
  lemma VisitedAll(nodes: seq<Node>, v: nat, before: set<nat>, after: set<nat>)
    requires Acyclic(nodes) && v < |nodes|
    requires before <= after <= before + Reach(nodes, v)
    requires forall c :: c in Prev(nodes[v].op) ==> Reach(nodes, c) <= after
    ensures after + {v} == before + Reach(nodes, v)
  {
    ReachSplit(nodes, v, after);
  }

  /** Appending an id that does not occur keeps the sequence free of duplicates. */
  lemma AppendFresh(t: seq<nat>, v: nat)
    requires NoDup(t) && v !in Elems(t)
    ensures NoDup(t + [v]) && Elems(t + [v]) == Elems(t) + {v}
  {
    assert forall i :: 0 <= i < |t| ==> t[i] in Elems(t);
  }

  /** A set holding everything reachable from each operand of `v` holds all of `Reach(v)` but `v`. */
  lemma ReachSplit(nodes: seq<Node>, v: nat, s: set<nat>)
    requires Acyclic(nodes) && v < |nodes|
    requires forall c :: c in Prev(nodes[v].op) ==> Reach(nodes, c) <= s
    ensures Reach(nodes, v) <= s + {v}
  {
    forall x | x in Reach(nodes, v) && x != v
      ensures x in s
    {
      var c :| c in Prev(nodes[v].op) && x in Reach(nodes, c);
    }
  }

  /** The loop `for child in v._prev: build_topo(child)`, after `v` was marked visited. */
  method VisitOperands(nodes: seq<Node>, v: nat, visited: set<nat>, topo: seq<nat>)
    returns (visited': set<nat>, topo': seq<nat>)
    requires Acyclic(nodes) && v < |nodes|
    requires OperandsFirst(nodes, topo) && NoDup(topo)
    requires v in visited && v !in Elems(topo) && Elems(topo) <= visited
    requires forall x :: x in visited && x !in Elems(topo) ==> x >= v
    ensures OperandsFirst(nodes, topo') && NoDup(topo')
    ensures |topo| <= |topo'| && topo'[..|topo|] == topo
    ensures Elems(topo) <= Elems(topo') <= Elems(topo) + Reach(nodes, v)
    ensures v !in Elems(topo')
    ensures forall c :: c in Prev(nodes[v].op) ==> Reach(nodes, c) <= Elems(topo')
    ensures visited' == visited + Elems(topo')
    decreases v, 0
  {
    visited', topo' := visited, topo;
    var children := Prev(nodes[v].op);
    while children != {}
      invariant children <= Prev(nodes[v].op)
      invariant OperandsFirst(nodes, topo') && NoDup(topo')
      invariant |topo| <= |topo'| && topo'[..|topo|] == topo
      invariant Elems(topo) <= Elems(topo') <= Elems(topo) + Reach(nodes, v)
      invariant v !in Elems(topo')
      invariant forall c :: c in Prev(nodes[v].op) - children ==> Reach(nodes, c) <= Elems(topo')
      invariant visited' == visited + Elems(topo')
      decreases children
    {
      var child :| child in children;
      assert Below(nodes[v].op, v);
      ghost var before := topo';
      visited', topo' := BuildTopo(nodes, child, visited', topo');
      VisitedOperand(nodes, v, child, Prev(nodes[v].op) - children, topo, before, topo');
      children := children - {child};
    }
  }

  /** What visiting one operand `child` of `v` adds to the order. */
  lemma VisitedOperand(nodes: seq<Node>, v: nat, child: nat, done: set<nat>, topo: seq<nat>, before: seq<nat>, after: seq<nat>)
    requires Acyclic(nodes) && v < |nodes| && child in Prev(nodes[v].op)
    requires done <= Prev(nodes[v].op) && Below(nodes[v].op, v)
    requires forall c :: c in done ==> Reach(nodes, c) <= Elems(before)
    requires |topo| <= |before| && before[..|topo|] == topo
    requires |before| <= |after| && after[..|before|] == before
    requires Elems(before) <= Elems(topo) + Reach(nodes, v) && v !in Elems(before)
    requires Elems(after) == Elems(before) + Reach(nodes, child)
    ensures after[..|topo|] == topo
    ensures Elems(before) <= Elems(after) <= Elems(topo) + Reach(nodes, v)
    ensures v !in Elems(after)
    ensures forall c :: c in done + {child} ==> Reach(nodes, c) <= Elems(after)
  {
    PrefixOfPrefix(topo, before, after);
    forall c | c in done + {child}
      ensures Reach(nodes, c) <= Elems(after)
    {
      if c != child {
        assert Reach(nodes, c) <= Elems(before);
      }
    }
    assert child < v;
    assert v !in Reach(nodes, child);
    assert child in Reach(nodes, child);
    ReachTransitive(nodes, v, child);
  }

  /** A prefix of a prefix is a prefix. */
  lemma PrefixOfPrefix(topo: seq<nat>, before: seq<nat>, after: seq<nat>)
    requires |topo| <= |before| && before[..|topo|] == topo
    requires |before| <= |after| && after[..|before|] == before
    ensures after[..|topo|] == topo
  {
    assert after[..|topo|] == before[..|topo|];
  }

  /**
   * `build_topo(root)` started from an empty list and an empty visited set.
   * The root is appended last, so the reversed walk runs its rule first.
   */
  method TopoSort(nodes: seq<Node>, root: nat) returns (topo: seq<nat>)
    requires Acyclic(nodes) && root < |nodes|
    ensures TopoOrder(nodes, root, topo)
    ensures topo != [] && topo[|topo| - 1] == root
  {
    var visited;
    visited, topo := BuildTopo(nodes, root, {}, []);
  }
}
