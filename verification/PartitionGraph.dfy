/** The circular-dependency check of the manifest tool (tools/tfm_parse_manifest_list.py, lines 191-242). */
module PartitionGraph {

  /** Partition name to the names of the partitions it depends on; every name mentioned has an entry. */
  type Graph = map<string, seq<string>>

  ghost predicate Closed(g: Graph) {
    forall p, d | p in g && d in g[p] :: d in g
  }

  predicate Edge(g: Graph, a: string, b: string) {
    a in g && b in g[a]
  }

  ghost predicate IsPath(g: Graph, c: seq<string>) {
    forall i | 0 <= i < |c| - 1 :: Edge(g, c[i], c[i + 1])
  }

  ghost predicate IsCycle(g: Graph, c: seq<string>) {
    |c| >= 2 && c[0] == c[|c| - 1] && IsPath(g, c)
  }

  ghost predicate HasCycle(g: Graph) {
    exists c :: IsCycle(g, c)
  }

  /** The shortest cycles: a partition that depends on itself, and two that depend on each other. */
  lemma ShortCycles(g: Graph, a: string, b: string)
    requires Edge(g, a, b) && (a == b || Edge(g, b, a))
    ensures HasCycle(g)
  {
    assert IsCycle(g, if a == b then [a, a] else [a, b, a]);
  }

  /** Every dependency of an entry comes before it. */
  ghost predicate Topological(g: Graph, order: seq<string>) {
    && (forall i | 0 <= i < |order| :: order[i] in g)
    && (forall i, d | 0 <= i < |order| && d in g[order[i]] :: d in order[..i])
    && (forall i, j | 0 <= i < j < |order| :: order[i] != order[j])
  }

  /** Along a path the position in a topological order falls with every step. */
  lemma {:induction false} PathDescends(g: Graph, order: seq<string>, c: seq<string>, i: nat) returns (j: nat)
    requires Topological(g, order) && |c| >= 1 && IsPath(g, c) && i < |order| && c[0] == order[i]
    ensures j + |c| - 1 <= i && order[j] == c[|c| - 1]
    decreases |c|
  {
    if |c| == 1 {
      j := i;
    } else {
      assert Edge(g, c[0], c[1]);
      assert c[1] in order[..i];
      var k :| 0 <= k < i && order[..i][k] == c[1];
      assert IsPath(g, c[1..]) by {
        forall m | 0 <= m < |c[1..]| - 1 ensures Edge(g, c[1..][m], c[1..][m + 1]) {
          assert Edge(g, c[m + 1], c[m + 2]);
        }
      }
      j := PathDescends(g, order, c[1..], k);
    }
  }

  /** A graph whose nodes can be listed dependencies first has no cycle. */
  lemma TopologicalAcyclic(g: Graph, order: seq<string>)
    requires Topological(g, order) && forall p | p in g :: p in order
    ensures !HasCycle(g)
  {
    if HasCycle(g) {
      var c :| IsCycle(g, c);
      assert Edge(g, c[0], c[1]);
      var i :| 0 <= i < |order| && order[i] == c[0];
      var j := PathDescends(g, order, c, i);
    }
  }

  /** A stack of calls that runs back into one of its own nodes is a cycle. */
  lemma StackCycle(g: Graph, stack: seq<string>, p: string)
    requires IsPath(g, stack + [p]) && p in stack
    ensures HasCycle(g)
  {
    var k :| 0 <= k < |stack| && stack[k] == p;
    var c := stack[k..] + [p];
    forall i | 0 <= i < |c| - 1 ensures Edge(g, c[i], c[i + 1]) {
      assert Edge(g, (stack + [p])[k + i], (stack + [p])[k + i + 1]);
    }
    assert IsCycle(g, c);
  }

  /** dependency_table with its validated flags, and the chain list that the recursion only ever appends to. */
  class DependencyTable {
    const deps: Graph
    var validated: set<string>
    var chain: seq<string>
    /** The validated partitions in the order they were finished. */
    ghost var order: seq<string>

    ghost predicate Valid()
      reads this
    {
      && Closed(deps)
      && Topological(deps, order)
      && (forall p :: p in validated <==> p in order)
    }

    /** Although nothing is popped, the chain entries that are not validated are exactly those on the call stack. */
    ghost predicate OnStack(stack: seq<string>)
      reads this
    {
      && (forall x | x in chain :: x in deps && (x in validated || x in stack))
      && (forall x | x in stack :: x in chain)
    }

    constructor (deps: Graph)
      requires Closed(deps)
      ensures Valid() && this.deps == deps && validated == {}
    {
      this.deps := deps;
      validated, chain, order := {}, [], [];
    }

    lemma FinishedDeps(p: string)
      requires Valid() && p in validated
      ensures forall d | d in deps[p] :: d in validated
    {
      var i :| 0 <= i < |order| && order[i] == p;
      forall d | d in deps[p] ensures d in validated {
        assert d in order[..i];
      }
    }

    lemma AppendTopological(p: string)
      requires Valid() && p in deps && p !in validated && forall d | d in deps[p] :: d in validated
      ensures Topological(deps, order + [p])
    {
      var o := order + [p];
      forall i, d | 0 <= i < |o| && d in deps[o[i]] ensures d in o[..i] {
        if i < |order| {
          assert d in order[..i] && o[..i] == order[..i];
        } else {
          assert o[..i] == order;
        }
      }
    }

    ghost function Unvisited(chain: seq<string>): set<string> {
      deps.Keys - set x | x in chain
    }

    lemma Visited(before: seq<string>, after: seq<string>, p: string)
      requires before + [p] <= after && p in deps && p !in before
      ensures Unvisited(after) < Unvisited(before)
    {
      assert p in Unvisited(before);
      assert after[|before|] == p;
      forall x | x in before ensures x in after {
        var i :| 0 <= i < |before| && before[i] == x;
        assert after[i] == (before + [p])[i];
      }
    }

    /** validate_dependency_chain; false stands for exiting with an error. */
    method Validate(p: string, ghost stack: seq<string>) returns (ok: bool)
      requires Valid() && p in deps && OnStack(stack)
      requires IsPath(deps, stack + [p])
      requires stack == [] ==> chain == []
      requires stack != [] ==> p !in validated
      modifies this`validated, this`chain, this`order
      ensures Valid() && old(validated) <= validated
      ensures ok ==> p in validated && OnStack(stack) && old(chain) <= chain
      ensures !ok ==> HasCycle(deps)
      decreases Unvisited(chain)
    {
      ghost var chain0 := chain;
      chain := chain + [p];
      if p in chain[..|chain| - 1] {
        assert p in old(chain);
        StackCycle(deps, stack, p);
        return false;
      }
      ghost var below := stack + [p];
      if p in validated {
        FinishedDeps(p);
      }
      ghost var chain1 := chain;
      var i := 0;
      while i < |deps[p]|
        invariant 0 <= i <= |deps[p]|
        invariant Valid() && old(validated) <= validated && OnStack(below) && chain1 <= chain
        invariant p in validated ==> forall d | d in deps[p] :: d in validated
        invariant forall k | 0 <= k < i :: deps[p][k] in validated
      {
        var d := deps[p][i];
        if d !in validated {
          StackEdge(deps, below, d);
          Visited(chain0, chain, p);
          ok := Validate(d, below);
          if !ok {
            return false;
          }
          if p in validated {
            FinishedDeps(p);
          }
        }
        i := i + 1;
      }
      if p !in validated {
        AppendTopological(p);
        order := order + [p];
      }
      validated := validated + {p};
      return true;
    }

    /** check_circular_dependency: every partition is the root of one check, each with a chain of its own. */
    method Check(names: seq<string>) returns (ok: bool)
      requires Valid() && forall p :: p in names <==> p in deps
      modifies this`validated, this`chain, this`order
      ensures Valid()
      ensures ok <==> !HasCycle(deps)
      ensures ok ==> forall p | p in deps :: p in order
    {
      for i := 0 to |names|
        invariant Valid() && forall k | 0 <= k < i :: names[k] in validated
      {
        chain := [];
        assert names[i] in names;
        ok := Validate(names[i], []);
        if !ok {
          return false;
        }
      }
      TopologicalAcyclic(deps, order);
      return true;
    }
  }

  lemma StackEdge(g: Graph, stack: seq<string>, d: string)
    requires |stack| > 0 && IsPath(g, stack) && Edge(g, stack[|stack| - 1], d)
    ensures IsPath(g, stack + [d])
  {
    var c := stack + [d];
    forall i | 0 <= i < |c| - 1 ensures Edge(g, c[i], c[i + 1]) {
      if i < |stack| - 1 {
        assert Edge(g, stack[i], stack[i + 1]);
      }
    }
  }

  /** Distinct entries drawn from a set are no more than the set has. */
  lemma {:induction false} DistinctFits(order: seq<string>, s: set<string>)
    requires forall i, j | 0 <= i < j < |order| :: order[i] != order[j]
    requires forall i | 0 <= i < |order| :: order[i] in s
    ensures |order| <= |s|
    decreases |order|
  {
    if order != [] {
      var n := |order| - 1;
      DistinctFits(order[..n], s - {order[n]});
    }
  }

  /** Outside a topological order of an acyclic graph some node has all its dependencies inside. */
  lemma {:induction false} NextNode(g: Graph, order: seq<string>, path: seq<string>) returns (p: string)
    requires Closed(g) && !HasCycle(g) && |path| >= 1 && IsPath(g, path)
    requires forall i | 0 <= i < |path| :: path[i] in g && path[i] !in order
    requires forall i, j | 0 <= i < j < |path| :: path[i] != path[j]
    ensures p in g && p !in order && forall d | d in g[p] :: d in order
    decreases |g.Keys| - |path|
  {
    p := path[|path| - 1];
    DistinctFits(path, g.Keys);
    if d :| d in g[p] && d !in order {
      var longer := path + [d];
      assert IsPath(g, longer) by {
        assert Edge(g, p, d);
        forall i | 0 <= i < |longer| - 1 ensures Edge(g, longer[i], longer[i + 1]) {
          if i < |path| - 1 {
            assert Edge(g, path[i], path[i + 1]);
          }
        }
      }
      if d in path {
        StackCycle(g, path, d);
      }
      DistinctFits(longer, g.Keys);
      p := NextNode(g, order, longer);
    }
  }

  /** A graph without a cycle can be listed dependencies first. */
  lemma {:induction false} AcyclicTopological(g: Graph, order: seq<string>) returns (full: seq<string>)
    requires Closed(g) && !HasCycle(g) && Topological(g, order)
    ensures Topological(g, full) && forall p | p in g :: p in full
    decreases |g.Keys| - |order|
  {
    full := order;
    DistinctFits(order, g.Keys);
    if x :| x in g && x !in order {
      assert IsPath(g, [x]);
      var p := NextNode(g, order, [x]);
      var longer := order + [p];
      assert Topological(g, longer) by {
        forall i, d | 0 <= i < |longer| && d in g[longer[i]] ensures d in longer[..i] {
          assert longer[..|order|] == order;
          if i < |order| {
            assert longer[..i] == order[..i];
          }
        }
      }
      DistinctFits(longer, g.Keys);
      full := AcyclicTopological(g, longer);
    }
  }
}
