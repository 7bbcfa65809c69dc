/**
 * Day 5, print queue: page-ordering rules kept in an index-based adjacency-list graph, updates checked
 * for validity by cycle detection on the rule graph extended with the update's own order, and invalid
 * updates reordered by a depth-first topological sort.
 */
module Day5 {
  import opened Common

  /** A node: the page number it carries and the head of its outgoing edge list. */
  datatype NodeData = NodeData(value: nat, first: Option<nat>)

  /** An edge: the index of its target node and the next edge out of the same source. */
  datatype EdgeData = EdgeData(target: nat, next: Option<nat>)

  /** Every edge links only to an earlier edge, so every outgoing list ends. */
  predicate Linked(edges: seq<EdgeData>)
  {
    forall i | 0 <= i < |edges| :: edges[i].next.Some? ==> edges[i].next.value < i
  }

  /** The targets met walking an outgoing list from edge `e`. */
  function Walk(edges: seq<EdgeData>, e: Option<nat>): seq<nat>
    requires Linked(edges) && (e.Some? ==> e.value < |edges|)
    decreases if e.Some? then e.value + 1 else 0
  {
    if e.None? then [] else [edges[e.value].target] + Walk(edges, edges[e.value].next)
  }

  /** Appending an edge does not change a list that starts at an older edge. */
  lemma {:induction false} WalkGrow(edges: seq<EdgeData>, x: EdgeData, e: Option<nat>)
    requires Linked(edges) && Linked(edges + [x]) && (e.Some? ==> e.value < |edges|)
    ensures Walk(edges + [x], e) == Walk(edges, e)
    decreases if e.Some? then e.value + 1 else 0
  {
    if e.Some? {
      assert (edges + [x])[e.value] == edges[e.value];
      WalkGrow(edges, x, edges[e.value].next);
    }
  }

  /** Every target on a list is the target of some edge. */
  lemma {:induction false} WalkTargets(edges: seq<EdgeData>, e: Option<nat>, n: nat)
    requires Linked(edges) && (e.Some? ==> e.value < |edges|)
    requires forall i | 0 <= i < |edges| :: edges[i].target < n
    ensures forall k | 0 <= k < |Walk(edges, e)| :: Walk(edges, e)[k] < n
    decreases if e.Some? then e.value + 1 else 0
  {
    if e.Some? {
      WalkTargets(edges, edges[e.value].next, n);
    }
  }

  /** No index occurs twice. */
  predicate Distinct(s: seq<nat>)
  {
    forall i, j | 0 <= i < j < |s| :: s[i] != s[j]
  }

  /** A value put in front of a list without it keeps the list free of repeats. */
  lemma DistinctCons(x: nat, s: seq<nat>)
    requires x !in s && Distinct(s)
    ensures Distinct([x] + s)
  {
    var t := [x] + s;
    forall i, j | 0 <= i < j < |t| ensures t[i] != t[j] {
      assert t[j] == s[j - 1];
      if i > 0 {
        assert t[i] == s[i - 1];
      }
    }
  }

  /** Edge links, edge targets and list heads all point inside the vectors. */
  predicate WellLinked(nodes: seq<NodeData>, edges: seq<EdgeData>)
  {
    && Linked(edges)
    && (forall i | 0 <= i < |edges| :: edges[i].target < |nodes|)
    && (forall i | 0 <= i < |nodes| :: nodes[i].first.Some? ==> nodes[i].first.value < |edges|)
  }

  /** The targets on the outgoing list of node `i`, newest edge first. */
  function Succ(nodes: seq<NodeData>, edges: seq<EdgeData>, i: nat): seq<nat>
    requires WellLinked(nodes, edges) && i < |nodes|
  {
    Walk(edges, nodes[i].first)
  }

  /** `index` and `nodes` agree both ways, so node values are distinct. */
  ghost predicate Indexed(index: map<nat, nat>, nodes: seq<NodeData>)
  {
    && (forall v | v in index :: index[v] < |nodes| && nodes[index[v]].value == v)
    && (forall i | 0 <= i < |nodes| :: nodes[i].value in index && index[nodes[i].value] == i)
  }

  /** A pair is in `edge_set` exactly when its target's index is, once, among its source's successors. */
  ghost predicate EdgesMatch(index: map<nat, nat>, edgeSet: set<(nat, nat)>, nodes: seq<NodeData>, edges: seq<EdgeData>)
    requires WellLinked(nodes, edges)
  {
    && (forall s, t | (s, t) in edgeSet :: s in index && t in index)
    && (forall i, j | 0 <= i < |nodes| && 0 <= j < |nodes| :: j in Succ(nodes, edges, i) <==> (nodes[i].value, nodes[j].value) in edgeSet)
    && (forall i | 0 <= i < |nodes| :: Distinct(Succ(nodes, edges, i)))
  }

  ghost predicate GraphOk(index: map<nat, nat>, edgeSet: set<(nat, nat)>, nodes: seq<NodeData>, edges: seq<EdgeData>)
  {
    WellLinked(nodes, edges) && Indexed(index, nodes) && EdgesMatch(index, edgeSet, nodes, edges)
  }

  /** A new value appended as an edgeless node keeps the graph consistent and leaves every list alone. */
  lemma AddNodeOk(index: map<nat, nat>, edgeSet: set<(nat, nat)>, nodes: seq<NodeData>, edges: seq<EdgeData>, value: nat)
    requires GraphOk(index, edgeSet, nodes, edges) && value !in index
    ensures WellLinked(nodes + [NodeData(value, None)], edges)
    ensures GraphOk(index[value := |nodes|], edgeSet, nodes + [NodeData(value, None)], edges)
    ensures forall k | 0 <= k < |nodes| :: Succ(nodes + [NodeData(value, None)], edges, k) == Succ(nodes, edges, k)
  {
    var nodes' := nodes + [NodeData(value, None)];
    var index' := index[value := |nodes|];
    assert forall k | 0 <= k < |nodes| :: nodes'[k] == nodes[k];
    assert WellLinked(nodes', edges);
    assert Succ(nodes', edges, |nodes|) == [];
    forall i, j | 0 <= i < |nodes'| && 0 <= j < |nodes'|
      ensures j in Succ(nodes', edges, i) <==> (nodes'[i].value, nodes'[j].value) in edgeSet
    {
      if i == |nodes| {
        assert nodes'[i].value !in index;
      } else if j == |nodes| {
        assert nodes'[j].value !in index;
        WalkTargets(edges, nodes[i].first, |nodes|);
        assert |nodes| !in Succ(nodes, edges, i);
      } else {
        assert Succ(nodes', edges, i) == Succ(nodes, edges, i);
      }
    }
    forall i | 0 <= i < |nodes'| ensures Distinct(Succ(nodes', edges, i)) {
      if i < |nodes| {
        assert Succ(nodes', edges, i) == Succ(nodes, edges, i);
      }
    }
    assert Indexed(index', nodes');
  }

  /**
   * Recording a new pair and heading the source's list with the target keeps the graph consistent:
   * the new successor was not there before, so the list stays free of repeats.
   */
  lemma AddPairOk(index: map<nat, nat>, edgeSet: set<(nat, nat)>, nodes: seq<NodeData>, edges: seq<EdgeData>,
                  nodes': seq<NodeData>, edges': seq<EdgeData>, source: nat, target: nat)
    requires GraphOk(index, edgeSet, nodes, edges) && (source, target) !in edgeSet && source in index && target in index
    requires WellLinked(nodes', edges') && |nodes'| == |nodes| && forall k | 0 <= k < |nodes| :: nodes'[k].value == nodes[k].value
    requires Succ(nodes', edges', index[source]) == [index[target]] + Succ(nodes, edges, index[source])
    requires forall k | 0 <= k < |nodes| && k != index[source] :: Succ(nodes', edges', k) == Succ(nodes, edges, k)
    ensures GraphOk(index, edgeSet + {(source, target)}, nodes', edges')
  {
    var s, t := index[source], index[target];
    assert t !in Succ(nodes, edges, s);
    assert Indexed(index, nodes');
    forall i | 0 <= i < |nodes'| ensures Distinct(Succ(nodes', edges', i)) {
      if i == s {
        DistinctCons(t, Succ(nodes, edges, s));
      }
    }
    forall i, j | 0 <= i < |nodes'| && 0 <= j < |nodes'|
      ensures j in Succ(nodes', edges', i) <==> (nodes'[i].value, nodes'[j].value) in edgeSet + {(source, target)}
    {
      if i == s && j == t {
      } else if i == s {
        assert nodes'[j].value != target;
      } else {
        assert nodes'[i].value != source;
      }
    }
  }

  /** `Graph`: nodes and edges in vectors, a value-to-index map and the set of rule pairs added. */
  class Graph {
    var index: map<nat, nat>
    var edgeSet: set<(nat, nat)>
    var nodes: seq<NodeData>
    var edges: seq<EdgeData>

    ghost predicate Wf()
      reads this
    {
      WellLinked(nodes, edges)
    }

    /** `successors(source)`: the targets on the outgoing list of node `source`, newest edge first. */
    function Successors(source: nat): seq<nat>
      reads this
      requires Wf() && source < |nodes|
    {
      Succ(nodes, edges, source)
    }

    ghost predicate Valid()
      reads this
    {
      GraphOk(index, edgeSet, nodes, edges)
    }

    /** `Graph::default()`: no nodes, no edges. */
    constructor ()
      ensures Valid()
      ensures index == map[] && edgeSet == {} && nodes == [] && edges == []
    {
      index, edgeSet, nodes, edges := map[], {}, [], [];
    }

    /** The graph's `clone()`: a new graph with the same contents. */
    method Clone() returns (r: Graph)
      ensures fresh(r)
      ensures r.index == index && r.edgeSet == edgeSet && r.nodes == nodes && r.edges == edges
    {
      r := new Graph();
      r.index, r.edgeSet, r.nodes, r.edges := index, edgeSet, nodes, edges;
    }

    /** The targets of a node's list lie inside the node vector. */
    lemma SuccessorsIn(source: nat)
      requires Wf() && source < |nodes|
      ensures forall k | 0 <= k < |Successors(source)| :: Successors(source)[k] < |nodes|
    {
      WalkTargets(edges, nodes[source].first, |nodes|);
    }

    /**
     * `add_node`: a known value keeps its index and changes nothing; a new value is appended with no
     * edges and indexed at the old node count.
     */
    method AddNode(value: nat) returns (i: nat)
      requires Valid()
      modifies this
      ensures Valid()
      ensures value in old(index) ==> i == old(index[value]) && index == old(index) && nodes == old(nodes)
      ensures value !in old(index) ==> i == old(|nodes|) && index == old(index)[value := i] && nodes == old(nodes) + [NodeData(value, None)]
      ensures edges == old(edges) && edgeSet == old(edgeSet)
      ensures i < |nodes| && value in index && index[value] == i && nodes[i].value == value
      ensures index.Keys == old(index.Keys) + {value}
    {
      if value in index {
        return index[value];
      }
      i := |nodes|;
      AddNodeOk(index, edgeSet, nodes, edges, value);
      index := index[value := i];
      nodes := nodes + [NodeData(value, None)];
    }

    /**
     * `add_edge`: appends one edge and makes it the head of the source's list, so the target comes
     * first among the source's successors; no other node's successors change. Duplicates are not checked.
     */
    method AddEdge(source: nat, target: nat)
      requires Wf() && source < |nodes| && target < |nodes|
      modifies this
      ensures Wf()
      ensures edges == old(edges) + [EdgeData(target, old(nodes[source].first))]
      ensures nodes == old(nodes)[source := NodeData(old(nodes[source].value), Some(old(|edges|)))]
      ensures index == old(index) && edgeSet == old(edgeSet)
      ensures Successors(source) == [target] + Succ(old(nodes), old(edges), source)
      ensures forall k | 0 <= k < |nodes| && k != source :: Successors(k) == Succ(old(nodes), old(edges), k)
    {
      var edge := EdgeData(target, nodes[source].first);
      var edgeIndex := |edges|;
      ghost var e0, n0 := edges, nodes;
      edges := edges + [edge];
      nodes := nodes[source := NodeData(nodes[source].value, Some(edgeIndex))];
      WalkGrow(e0, edge, n0[source].first);
      assert Successors(source) == [target] + Walk(edges, n0[source].first);
      forall k | 0 <= k < |nodes| && k != source ensures Successors(k) == Walk(e0, n0[k].first) {
        WalkGrow(e0, edge, n0[k].first);
      }
    }

    /**
     * `add_edge_by_value`: nothing changes when the pair is already recorded; otherwise the pair is
     * recorded and the target's index becomes the first successor of the source's index.
     */
    method AddEdgeByValue(source: nat, target: nat)
      requires Valid() && ((source, target) in edgeSet || (source in index && target in index))
      modifies this
      ensures Valid()
      ensures index == old(index) && |nodes| == old(|nodes|)
      ensures (source, target) in old(edgeSet) ==> edgeSet == old(edgeSet) && nodes == old(nodes) && edges == old(edges)
      ensures (source, target) !in old(edgeSet) ==>
        && edgeSet == old(edgeSet) + {(source, target)} && |edges| == old(|edges|) + 1
        && Successors(index[source]) == [index[target]] + old(Successors(index[source]))
        && forall k | 0 <= k < |nodes| && k != index[source] :: Successors(k) == old(Successors(k))
    {
      if (source, target) in edgeSet {
        return;
      }
      var s, t := index[source], index[target];
      ghost var n0, e0 := nodes, edges;
      AddEdge(s, t);
      AddPairOk(index, edgeSet, n0, e0, nodes, edges, source, target);
      edgeSet := edgeSet + {(source, target)};
    }

    /** The body of `parse_rules`' loop: both pages become nodes, then the rule an edge. */
    method AddRule(source: nat, target: nat)
      requires Valid()
      modifies this
      ensures Valid()
      ensures edgeSet == old(edgeSet) + {(source, target)} && index.Keys == old(index.Keys) + {source, target}
    {
      var _ := AddNode(source);
      AddStep(source, target);
    }

    /** The body of `extend_graph`'s loop: the next page becomes a node, then the step from the previous page an edge. */
    method AddStep(prev: nat, next: nat)
      requires Valid() && prev in index
      modifies this
      ensures Valid()
      ensures edgeSet == old(edgeSet) + {(prev, next)} && index.Keys == old(index.Keys) + {next}
    {
      var _ := AddNode(next);
      AddEdgeByValue(prev, next);
    }

    /** The part of `extend_graph` after the copy: the update's pages become nodes, each joined to the next. */
    method AddChain(values: seq<nat>)
      requires Valid() && |values| >= 1
      modifies this
      ensures Valid()
      ensures edgeSet == old(edgeSet) + Chain(values) && index.Keys == old(index.Keys) + Elems(values)
    {
      var prev := values[0];
      var _ := AddNode(prev);
      assert Chain(values[..1]) == {};
      assert Elems(values[..1]) == {prev};
      for k := 1 to |values|
        invariant Valid() && prev == values[k - 1]
        invariant edgeSet == old(edgeSet) + Chain(values[..k]) && index.Keys == old(index.Keys) + Elems(values[..k])
      {
        var next := values[k];
        ElemsNext(values, k);
        ChainNext(values, k);
        ghost var pairs, pages := edgeSet, index.Keys;
        AddStep(prev, next);
        Regroup(old(edgeSet), Chain(values[..k]), {(prev, next)}, Chain(values[..k + 1]), pairs, edgeSet);
        Regroup(old(index.Keys), Elems(values[..k]), {next}, Elems(values[..k + 1]), pages, index.Keys);
        prev := next;
      }
      assert values[..|values|] == values;
    }

    /** The `Successors` iterator drained into a vector: it follows the list from the node's head. */
    method SuccessorList(source: nat) returns (r: seq<nat>)
      requires Wf() && source < |nodes|
      ensures r == Successors(source)
    {
      r := [];
      var current := nodes[source].first;
      while current.Some?
        invariant current.Some? ==> current.value < |edges|
        invariant r + Walk(edges, current) == Successors(source)
        decreases if current.Some? then current.value + 1 else 0
      {
        var edge := edges[current.value];
        r := r + [edge.target];
        current := edge.next;
      }
    }
  }

  // Cycle detection

  /** `path` runs through `filter` along edges of the graph. */
  ghost predicate Path(nodes: seq<NodeData>, edges: seq<EdgeData>, filter: set<nat>, path: seq<nat>)
    requires WellLinked(nodes, edges)
  {
    && (forall k | 0 <= k < |path| :: path[k] in filter && path[k] < |nodes|)
    && (forall k | 0 <= k < |path| - 1 :: path[k + 1] in Succ(nodes, edges, path[k]))
  }

  /** The subgraph induced by `filter` has a directed cycle. */
  ghost predicate HasCycle(nodes: seq<NodeData>, edges: seq<EdgeData>, filter: set<nat>)
    requires WellLinked(nodes, edges)
  {
    exists path :: |path| >= 2 && path[0] == path[|path| - 1] && Path(nodes, edges, filter, path)
  }

  /** The node indices of a graph with `n` nodes. */
  function Below(n: nat): (r: set<nat>)
    ensures forall i: nat :: i in r <==> i < n
  {
    if n == 0 then {} else Below(n - 1) + {n - 1}
  }

  /** Marking one more node shrinks what is left to mark. */
  lemma Shrink(n: nat, visited: set<nat>, visited': set<nat>, v: nat)
    requires v < n && v !in visited && visited + {v} <= visited' <= Below(n)
    ensures |Below(n) - visited'| < |Below(n) - visited|
  {
    var small, big := Below(n) - visited', Below(n) - visited;
    assert small <= big - {v};
    assert big == small + (big - small) && small * (big - small) == {};
    assert v in big - small;
  }

  /** The nodes visited but not finished are exactly those on the stack, a path through `filter`. */
  ghost predicate Gray(nodes: seq<NodeData>, edges: seq<EdgeData>, filter: set<nat>, visited: set<nat>, finished: set<nat>, stack: seq<nat>)
    requires WellLinked(nodes, edges)
  {
    && finished <= visited <= Below(|nodes|)
    && (forall x :: x in visited && x !in finished <==> x in stack)
    && Distinct(stack) && Path(nodes, edges, filter, stack)
  }

  /**
   * The finished nodes carry ranks below `clock`, and every edge inside `filter` out of a finished node
   * leads to a finished node of lower rank: the finished part of the subgraph has no cycle.
   */
  ghost predicate Ranked(nodes: seq<NodeData>, edges: seq<EdgeData>, filter: set<nat>, finished: set<nat>, rank: map<nat, nat>, clock: nat)
    requires WellLinked(nodes, edges)
  {
    && rank.Keys == finished
    && (forall u | u in rank :: u < |nodes| && rank[u] < clock)
    && (forall u, w | u in rank && w in filter && w in Succ(nodes, edges, u) :: w in rank && rank[w] < rank[u])
  }

  /** An edge from the top of the stack back to a node on it closes a cycle. */
  lemma CycleFromStack(nodes: seq<NodeData>, edges: seq<EdgeData>, filter: set<nat>, stack: seq<nat>, v: nat)
    requires WellLinked(nodes, edges) && Path(nodes, edges, filter, stack) && v in stack
    requires v in Succ(nodes, edges, stack[|stack| - 1])
    ensures HasCycle(nodes, edges, filter)
  {
    var j :| 0 <= j < |stack| && stack[j] == v;
    var path := stack[j..] + [v];
    assert Path(nodes, edges, filter, path) by {
      forall k | 0 <= k < |path| - 1 ensures path[k + 1] in Succ(nodes, edges, path[k]) {
        if k < |path| - 2 {
          assert path[k] == stack[j + k] && path[k + 1] == stack[j + k + 1];
        }
      }
    }
  }

  /** Along a path whose nodes are all ranked, ranks strictly fall. */
  lemma {:induction false} RanksFall(nodes: seq<NodeData>, edges: seq<EdgeData>, filter: set<nat>, rank: map<nat, nat>, clock: nat, path: seq<nat>, k: nat)
    requires WellLinked(nodes, edges) && Ranked(nodes, edges, filter, rank.Keys, rank, clock)
    requires Path(nodes, edges, filter, path) && 1 <= k < |path| && forall m | 0 <= m < |path| :: path[m] in rank
    ensures rank[path[k]] < rank[path[0]]
  {
    assert path[k] in Succ(nodes, edges, path[k - 1]);
    if k > 1 {
      RanksFall(nodes, edges, filter, rank, clock, path, k - 1);
    }
  }

  /** When every node of `filter` is ranked, the subgraph has no cycle. */
  lemma RankedAcyclic(nodes: seq<NodeData>, edges: seq<EdgeData>, filter: set<nat>, rank: map<nat, nat>, clock: nat)
    requires WellLinked(nodes, edges) && Ranked(nodes, edges, filter, rank.Keys, rank, clock)
    requires forall u | u < |nodes| && u in filter :: u in rank
    ensures !HasCycle(nodes, edges, filter)
  {
    if HasCycle(nodes, edges, filter) {
      var path :| |path| >= 2 && path[0] == path[|path| - 1] && Path(nodes, edges, filter, path);
      RanksFall(nodes, edges, filter, rank, clock, path, |path| - 1);
    }
  }

  /** Marking a new node of `filter`, reached from the top of the stack, pushes it on the stack. */
  lemma Enter(nodes: seq<NodeData>, edges: seq<EdgeData>, filter: set<nat>, visited: set<nat>, finished: set<nat>, stack: seq<nat>, v: nat)
    requires WellLinked(nodes, edges) && Gray(nodes, edges, filter, visited, finished, stack)
    requires v < |nodes| && v in filter && v !in visited
    requires |stack| > 0 ==> v in Succ(nodes, edges, stack[|stack| - 1])
    ensures Gray(nodes, edges, filter, visited + {v}, finished, stack + [v])
  {
    var stack' := stack + [v];
    assert v !in stack;
    forall k | 0 <= k < |stack'| - 1 ensures stack'[k + 1] in Succ(nodes, edges, stack'[k]) {
      if k < |stack| - 1 {
        assert stack'[k] == stack[k] && stack'[k + 1] == stack[k + 1];
      }
    }
  }

  /** Finishing the top of the stack pops it: it was not finished, and the rest of the stack stays gray. */
  lemma Pop(nodes: seq<NodeData>, edges: seq<EdgeData>, filter: set<nat>, visited: set<nat>, finished: set<nat>, stack: seq<nat>, v: nat)
    requires WellLinked(nodes, edges) && Gray(nodes, edges, filter, visited, finished, stack + [v])
    ensures v !in finished && v in visited && Gray(nodes, edges, filter, visited, finished + {v}, stack)
  {
    var stack' := stack + [v];
    assert forall k | 0 <= k < |stack| :: stack[k] == stack'[k];
    assert v in stack' by {
      assert stack'[|stack|] == v;
    }
    forall x ensures x in visited && x !in finished + {v} <==> x in stack {
      if x in stack {
        assert x != v by {
          var j :| 0 <= j < |stack| && stack[j] == x;
          assert stack'[j] == x && stack'[|stack|] == v;
        }
      }
    }
  }

  /** Finishing the top of the stack once its successors in `filter` are finished ranks it above them. */
  lemma Finish(nodes: seq<NodeData>, edges: seq<EdgeData>, filter: set<nat>, visited: set<nat>, finished: set<nat>, stack: seq<nat>,
               v: nat, rank: map<nat, nat>, clock: nat)
    requires WellLinked(nodes, edges) && v < |nodes|
    requires Gray(nodes, edges, filter, visited, finished, stack + [v]) && Ranked(nodes, edges, filter, finished, rank, clock)
    requires forall w | w in filter && w in Succ(nodes, edges, v) :: w in finished
    ensures Gray(nodes, edges, filter, visited, finished + {v}, stack) && Ranked(nodes, edges, filter, finished + {v}, rank[v := clock], clock + 1)
  {
    Pop(nodes, edges, filter, visited, finished, stack, v);
  }

  /** Finished nodes stay finished, so the successors handled so far stay finished. */
  lemma StillFinished(next: seq<nat>, k: nat, filter: set<nat>, before: set<nat>, after: set<nat>)
    requires k < |next| && before <= after && (next[k] in filter ==> next[k] in after)
    requires forall m | 0 <= m < k && next[m] in filter :: next[m] in before
    ensures forall m | 0 <= m < k + 1 && next[m] in filter :: next[m] in after
  {
  }

  /** Marking more nodes never leaves more to mark. */
  lemma Fewer(n: nat, visited: set<nat>, visited': set<nat>)
    requires visited <= visited'
    ensures |Below(n) - visited'| <= |Below(n) - visited|
  {
    var small, big := Below(n) - visited', Below(n) - visited;
    assert big == small + (big - small) && small * (big - small) == {};
  }

  /**
   * `contains_cycle`'s inner `dfs` from `v`, with `stack` the gray nodes in calling order. A true
   * answer means the filtered subgraph has a cycle; a false one finishes `v` when it is in `filter`,
   * leaves the gray nodes as they were and keeps the finished nodes ranked.
   */
  method CycleDfs(g: Graph, filter: set<nat>, v: nat, visited: set<nat>, finished: set<nat>,
                  ghost stack: seq<nat>, ghost rank: map<nat, nat>, ghost clock: nat)
      returns (found: bool, visited': set<nat>, finished': set<nat>, ghost rank': map<nat, nat>, ghost clock': nat)
    requires g.Wf() && v < |g.nodes|
    requires Gray(g.nodes, g.edges, filter, visited, finished, stack) && Ranked(g.nodes, g.edges, filter, finished, rank, clock)
    requires |stack| > 0 ==> v in g.Successors(stack[|stack| - 1])
    ensures visited <= visited' <= Below(|g.nodes|)
    ensures found ==> HasCycle(g.nodes, g.edges, filter)
    ensures !found ==> finished <= finished' && (v in filter ==> v in finished')
    ensures !found ==> Gray(g.nodes, g.edges, filter, visited', finished', stack) && Ranked(g.nodes, g.edges, filter, finished', rank', clock')
    decreases |Below(|g.nodes|) - visited|, 1
  {
    if v in finished || v !in filter {
      return false, visited, finished, rank, clock;
    } else if v in visited {
      CycleFromStack(g.nodes, g.edges, filter, stack, v);
      return true, visited, finished, rank, clock;
    }
    Enter(g.nodes, g.edges, filter, visited, finished, stack, v);
    Shrink(|g.nodes|, visited, visited + {v}, v);
    var next := g.SuccessorList(v);
    found, visited', finished', rank', clock' := AnyCycle(g, filter, v, next, visited + {v}, finished, stack, rank, clock);
    if !found {
      Finish(g.nodes, g.edges, filter, visited', finished', stack, v, rank', clock');
      finished' := finished' + {v};
      rank' := rank'[v := clock'];
      clock' := clock' + 1;
    }
  }

  /**
   * The `any` over the successors of `v`, the top of the stack: stops at the first `dfs` that finds a
   * cycle; otherwise every successor in `filter` ends finished.
   */
  method AnyCycle(g: Graph, filter: set<nat>, v: nat, next: seq<nat>, visited: set<nat>, finished: set<nat>,
                  ghost stack: seq<nat>, ghost rank: map<nat, nat>, ghost clock: nat)
      returns (found: bool, visited': set<nat>, finished': set<nat>, ghost rank': map<nat, nat>, ghost clock': nat)
    requires g.Wf() && v < |g.nodes| && next == g.Successors(v)
    requires Gray(g.nodes, g.edges, filter, visited, finished, stack + [v]) && Ranked(g.nodes, g.edges, filter, finished, rank, clock)
    ensures visited <= visited' <= Below(|g.nodes|)
    ensures found ==> HasCycle(g.nodes, g.edges, filter)
    ensures !found ==> Gray(g.nodes, g.edges, filter, visited', finished', stack + [v]) && Ranked(g.nodes, g.edges, filter, finished', rank', clock')
    ensures !found ==> forall w | w in filter && w in Succ(g.nodes, g.edges, v) :: w in finished'
    decreases |Below(|g.nodes|) - visited| + 1, 0
  {
    visited', finished', rank', clock' := visited, finished, rank, clock;
    ghost var stack' := stack + [v];
    g.SuccessorsIn(v);
    for k := 0 to |next|
      invariant visited <= visited' <= Below(|g.nodes|)
      invariant Gray(g.nodes, g.edges, filter, visited', finished', stack') && Ranked(g.nodes, g.edges, filter, finished', rank', clock')
      invariant forall m | 0 <= m < k && next[m] in filter :: next[m] in finished'
    {
      Fewer(|g.nodes|, visited, visited');
      assert next[k] < |g.nodes| && next[k] in g.Successors(stack'[|stack'| - 1]);
      ghost var before := finished';
      var r;
      r, visited', finished', rank', clock' := CycleDfs(g, filter, next[k], visited', finished', stack', rank', clock');
      if r {
        return true, visited', finished', rank', clock';
      }
      StillFinished(next, k, filter, before, finished');
    }
    found := false;
  }

  /** `contains_cycle`: a depth-first search from every node; true exactly when the subgraph induced by `filter` has a cycle. */
  method ContainsCycle(g: Graph, filter: set<nat>) returns (r: bool)
    requires g.Wf()
    ensures r <==> HasCycle(g.nodes, g.edges, filter)
  {
    var visited, finished := {}, {};
    ghost var rank: map<nat, nat>, clock := map[], 0;
    for v := 0 to |g.nodes|
      invariant Gray(g.nodes, g.edges, filter, visited, finished, []) && Ranked(g.nodes, g.edges, filter, finished, rank, clock)
      invariant forall u | u < v && u in filter :: u in finished
    {
      var found;
      ghost var before := finished;
      found, visited, finished, rank, clock := CycleDfs(g, filter, v, visited, finished, [], rank, clock);
      if found {
        return true;
      }
      forall u | u < v + 1 && u in filter ensures u in finished {
        if u < v {
          assert u in before;
        }
      }
    }
    RankedAcyclic(g.nodes, g.edges, filter, rank, clock);
    return false;
  }

  // Topological sort

  /** The elements of `s`. */
  function Elems(s: seq<nat>): (r: set<nat>)
    ensures forall x :: x in r <==> x in s
  {
    set x | x in s
  }

  /** `nodes.iter().map(|n| *g.index.get(n).unwrap())`: the node index of every requested value. */
  function Indices(index: map<nat, nat>, values: seq<nat>): (r: seq<nat>)
    requires forall v | v in values :: v in index
    ensures |r| == |values| && forall i | 0 <= i < |values| :: r[i] == index[values[i]]
  {
    if values == [] then [] else [index[values[0]]] + Indices(index, values[1..])
  }

  /** The node indices of the requested values. */
  function IndexSet(index: map<nat, nat>, values: seq<nat>): set<nat>
    requires forall v | v in values :: v in index
  {
    Elems(Indices(index, values))
  }

  /** `l` holds each permanently marked node once. */
  ghost predicate Listed(l: seq<nat>, p: set<nat>)
  {
    Distinct(l) && forall x :: x in l <==> x in p
  }

  /**
   * Every successor inside `filter` of a node in `l` comes earlier in `l`, unless the subgraph has a
   * cycle: reversed, `l` puts every edge's source before its target.
   */
  ghost predicate Placed(nodes: seq<NodeData>, edges: seq<EdgeData>, filter: set<nat>, l: seq<nat>)
    requires WellLinked(nodes, edges)
  {
    forall i, w | 0 <= i < |l| && l[i] < |nodes| && w in filter && w in Succ(nodes, edges, l[i]) ::
      w in l[..i] || HasCycle(nodes, edges, filter)
  }

  /** Pushing the top of the stack once its successors are marked keeps the list placed. */
  lemma Push(nodes: seq<NodeData>, edges: seq<EdgeData>, filter: set<nat>, t: set<nat>, p: set<nat>, stack: seq<nat>, n: nat, l: seq<nat>)
    requires WellLinked(nodes, edges) && n < |nodes|
    requires Gray(nodes, edges, filter, t, p, stack + [n]) && Listed(l, p) && Placed(nodes, edges, filter, l)
    requires forall w | w in filter && w in Succ(nodes, edges, n) :: w in p || HasCycle(nodes, edges, filter)
    ensures Gray(nodes, edges, filter, t, p + {n}, stack) && Listed(l + [n], p + {n}) && Placed(nodes, edges, filter, l + [n])
  {
    Pop(nodes, edges, filter, t, p, stack, n);
    var l' := l + [n];
    assert forall i | 0 <= i < |l| :: l'[..i] == l[..i] && l'[i] == l[i];
    assert l'[..|l|] == l;
  }

  /** Marked nodes stay marked, so the successors handled so far stay marked. */
  lemma StillMarked(nodes: seq<NodeData>, edges: seq<EdgeData>, filter: set<nat>, next: seq<nat>, k: nat, before: set<nat>, after: set<nat>)
    requires WellLinked(nodes, edges) && k < |next| && before <= after
    requires next[k] in filter ==> next[k] in after || HasCycle(nodes, edges, filter)
    requires forall j | 0 <= j < k && next[j] in filter :: next[j] in before || HasCycle(nodes, edges, filter)
    ensures forall j | 0 <= j < k + 1 && next[j] in filter :: next[j] in after || HasCycle(nodes, edges, filter)
  {
  }

  /**
   * `topological_sort`'s inner `visit` of node `n`, with `stack` the temporarily marked nodes in
   * calling order: a node already marked is left alone; otherwise its successors among the requested
   * nodes are visited and it is then marked permanently and pushed on `l`.
   */
  method TopoVisit(g: Graph, ns: seq<nat>, l: seq<nat>, p: set<nat>, t: set<nat>, n: nat, ghost stack: seq<nat>)
      returns (l': seq<nat>, p': set<nat>, t': set<nat>)
    requires g.Wf() && n < |g.nodes| && n in ns && t <= Elems(ns)
    requires Gray(g.nodes, g.edges, Elems(ns), t, p, stack) && Listed(l, p) && Placed(g.nodes, g.edges, Elems(ns), l)
    requires |stack| > 0 ==> n in g.Successors(stack[|stack| - 1])
    ensures t <= t' <= Elems(ns) && p <= p'
    ensures Gray(g.nodes, g.edges, Elems(ns), t', p', stack) && Listed(l', p') && Placed(g.nodes, g.edges, Elems(ns), l')
    ensures n in p' || n in stack
    decreases |Below(|g.nodes|) - t|, 1
  {
    if n in p {
      return l, p, t;
    }
    if n in t {
      return l, p, t;
    }
    Enter(g.nodes, g.edges, Elems(ns), t, p, stack, n);
    Shrink(|g.nodes|, t, t + {n}, n);
    var next := g.SuccessorList(n);
    l', p', t' := VisitAll(g, ns, n, next, l, p, t + {n}, stack);
    Push(g.nodes, g.edges, Elems(ns), t', p', stack, n, l');
    l' := l' + [n];
    p' := p' + {n};
  }

  /** The `for m in successors(n).filter(...)` loop of `visit`: each successor among the requested nodes is visited. */
  method VisitAll(g: Graph, ns: seq<nat>, n: nat, next: seq<nat>, l: seq<nat>, p: set<nat>, t: set<nat>, ghost stack: seq<nat>)
      returns (l': seq<nat>, p': set<nat>, t': set<nat>)
    requires g.Wf() && n < |g.nodes| && next == g.Successors(n) && t <= Elems(ns)
    requires Gray(g.nodes, g.edges, Elems(ns), t, p, stack + [n]) && Listed(l, p) && Placed(g.nodes, g.edges, Elems(ns), l)
    ensures t <= t' <= Elems(ns) && p <= p'
    ensures Gray(g.nodes, g.edges, Elems(ns), t', p', stack + [n]) && Listed(l', p') && Placed(g.nodes, g.edges, Elems(ns), l')
    ensures forall w | w in Elems(ns) && w in Succ(g.nodes, g.edges, n) :: w in p' || HasCycle(g.nodes, g.edges, Elems(ns))
    decreases |Below(|g.nodes|) - t| + 1, 0
  {
    l', p', t' := l, p, t;
    ghost var stack' := stack + [n];
    g.SuccessorsIn(n);
    for k := 0 to |next|
      invariant t <= t' <= Elems(ns) && p <= p'
      invariant Gray(g.nodes, g.edges, Elems(ns), t', p', stack') && Listed(l', p') && Placed(g.nodes, g.edges, Elems(ns), l')
      invariant forall j | 0 <= j < k && next[j] in Elems(ns) :: next[j] in p' || HasCycle(g.nodes, g.edges, Elems(ns))
    {
      ghost var before := p';
      if next[k] in ns {
        Fewer(|g.nodes|, t, t');
        assert next[k] < |g.nodes| && next[k] in g.Successors(stack'[|stack'| - 1]);
        l', p', t' := TopoVisit(g, ns, l', p', t', next[k], stack');
        if next[k] !in p' {
          CycleFromStack(g.nodes, g.edges, Elems(ns), stack', next[k]);
        }
      }
      StillMarked(g.nodes, g.edges, Elems(ns), next, k, before, p');
    }
  }

  /** A node among the requested ones carries a requested value. */
  lemma NameRequested(index: map<nat, nat>, nodes: seq<NodeData>, values: seq<nat>, x: nat)
    requires Indexed(index, nodes) && (forall v | v in values :: v in index) && x in Indices(index, values)
    ensures x < |nodes| && nodes[x].value in values
  {
    var ns := Indices(index, values);
    var i :| 0 <= i < |ns| && ns[i] == x;
    assert x == index[values[i]];
  }

  /** Naming the list backwards: the `m`-th value names the `m`-th node from the end, and maps back to it. */
  ghost predicate Named(nodes: seq<NodeData>, l: seq<nat>, res: seq<nat>)
  {
    && |res| == |l| && (forall i | 0 <= i < |l| :: l[i] < |nodes|)
    && forall m | 0 <= m < |res| :: res[m] == nodes[l[|l| - 1 - m]].value
  }

  /** Once every requested node is marked, the list holds exactly the requested nodes, all inside the graph. */
  lemma AllListed(nodes: seq<NodeData>, edges: seq<EdgeData>, ns: seq<nat>, l: seq<nat>, p: set<nat>, t: set<nat>)
    requires WellLinked(nodes, edges) && t <= Elems(ns) && Gray(nodes, edges, Elems(ns), t, p, []) && Listed(l, p)
    requires forall j | 0 <= j < |ns| :: ns[j] in p
    ensures Listed(l, Elems(ns)) && forall i | 0 <= i < |l| :: l[i] < |nodes| && l[i] in ns
  {
    assert p == Elems(ns);
    forall i | 0 <= i < |l| ensures l[i] < |nodes| && l[i] in ns {
      assert l[i] in p;
    }
  }

  /** Node values map back to their nodes. */
  lemma Unname(index: map<nat, nat>, nodes: seq<NodeData>, l: seq<nat>, res: seq<nat>)
    requires Indexed(index, nodes) && Named(nodes, l, res)
    ensures forall m | 0 <= m < |res| :: res[m] in index && index[res[m]] == l[|l| - 1 - m]
  {
  }

  /** Reading the finished list backwards and naming its nodes gives each requested value once. */
  lemma OutputValues(index: map<nat, nat>, nodes: seq<NodeData>, values: seq<nat>, ns: seq<nat>, l: seq<nat>, res: seq<nat>)
    requires Indexed(index, nodes) && (forall v | v in values :: v in index) && ns == Indices(index, values)
    requires Listed(l, Elems(ns)) && Named(nodes, l, res)
    ensures forall v :: v in res <==> v in values
    ensures Distinct(res)
  {
    var n := |l|;
    Unname(index, nodes, l, res);
    forall v | v in res ensures v in values {
      var m :| 0 <= m < n && res[m] == v;
      assert l[n - 1 - m] in l;
      NameRequested(index, nodes, values, l[n - 1 - m]);
    }
    forall v | v in values ensures v in res {
      assert index[v] in ns;
      var q :| 0 <= q < n && l[q] == index[v];
      assert res[n - 1 - q] == v;
    }
  }

  /** When the requested subgraph has no cycle, the backwards list names every edge's source before its target. */
  lemma OutputOrder(index: map<nat, nat>, nodes: seq<NodeData>, edges: seq<EdgeData>, ns: seq<nat>, l: seq<nat>, res: seq<nat>)
    requires WellLinked(nodes, edges) && Indexed(index, nodes)
    requires Listed(l, Elems(ns)) && Placed(nodes, edges, Elems(ns), l) && Named(nodes, l, res)
    requires !HasCycle(nodes, edges, Elems(ns))
    ensures forall m | 0 <= m < |res| :: res[m] in index
    ensures forall i, j | 0 <= i < |res| && 0 <= j < |res| && index[res[j]] in Succ(nodes, edges, index[res[i]]) :: i < j
  {
    var n := |l|;
    Unname(index, nodes, l, res);
    forall i, j | 0 <= i < n && 0 <= j < n && index[res[j]] in Succ(nodes, edges, index[res[i]]) ensures i < j {
      var x, w := l[n - 1 - i], l[n - 1 - j];
      assert w in l;
      assert w in l[..n - 1 - i];
      var q :| 0 <= q < n - 1 - i && l[..n - 1 - i][q] == w;
      assert l[q] == w;
    }
  }

  /**
   * The loop of `topological_sort` over the requested nodes: afterwards `l` lists each of them once,
   * every successor among them earlier than its source unless they contain a cycle.
   */
  method VisitRequested(g: Graph, ns: seq<nat>) returns (l: seq<nat>)
    requires g.Wf() && forall j | 0 <= j < |ns| :: ns[j] < |g.nodes|
    ensures Listed(l, Elems(ns)) && Placed(g.nodes, g.edges, Elems(ns), l)
    ensures forall i | 0 <= i < |l| :: l[i] < |g.nodes| && l[i] in ns
  {
    l := [];
    var p, t := {}, {};
    for k := 0 to |ns|
      invariant t <= Elems(ns) && Gray(g.nodes, g.edges, Elems(ns), t, p, []) && Listed(l, p) && Placed(g.nodes, g.edges, Elems(ns), l)
      invariant forall j | 0 <= j < k :: ns[j] in p
    {
      if ns[k] !in p {
        l, p, t := TopoVisit(g, ns, l, p, t, ns[k], []);
      }
    }
    AllListed(g.nodes, g.edges, ns, l, p, t);
  }

  /** `l.reverse()` followed by naming each node and keeping the requested values: every value is kept. */
  method NameBackwards(g: Graph, values: seq<nat>, l: seq<nat>) returns (res: seq<nat>)
    requires Indexed(g.index, g.nodes) && (forall v | v in values :: v in g.index)
    requires forall i | 0 <= i < |l| :: l[i] < |g.nodes| && l[i] in Indices(g.index, values)
    ensures Named(g.nodes, l, res)
  {
    res := [];
    var k := |l|;
    while k > 0
      invariant 0 <= k <= |l| && |res| == |l| - k
      invariant forall m | 0 <= m < |res| :: res[m] == g.nodes[l[|l| - 1 - m]].value
    {
      k := k - 1;
      var value := g.nodes[l[k]].value;
      assert value in values by {
        NameRequested(g.index, g.nodes, values, l[k]);
      }
      if value in values {
        ghost var before := res;
        res := res + [value];
        assert res[|res| - 1] == g.nodes[l[|l| - 1 - (|res| - 1)]].value;
        assert forall m | 0 <= m < |before| :: res[m] == before[m];
      }
    }
  }

  /**
   * `topological_sort`: each requested value once, and when the subgraph of the requested nodes has no
   * cycle, the source of every edge between two of them before its target.
   */
  method TopologicalSort(g: Graph, values: seq<nat>) returns (res: seq<nat>)
    requires g.Valid() && forall v | v in values :: v in g.index
    ensures forall v :: v in res <==> v in values
    ensures Distinct(res)
    ensures !HasCycle(g.nodes, g.edges, IndexSet(g.index, values)) ==>
      forall i, j | 0 <= i < |res| && 0 <= j < |res| && g.index[res[j]] in g.Successors(g.index[res[i]]) :: i < j
  {
    var ns := Indices(g.index, values);
    var l := VisitRequested(g, ns);
    res := NameBackwards(g, values, l);
    OutputValues(g.index, g.nodes, values, ns, l, res);
    if !HasCycle(g.nodes, g.edges, Elems(ns)) {
      OutputOrder(g.index, g.nodes, g.edges, ns, l, res);
    }
  }

  // Rules, updates and the two parts

  /** The pages named by a list of rules. */
  function Pages(rules: seq<(nat, nat)>): set<nat>
  {
    if rules == [] then {} else Pages(rules[..|rules| - 1]) + {rules[|rules| - 1].0, rules[|rules| - 1].1}
  }

  /** The rules of a list, as pairs. */
  function Pairs(rules: seq<(nat, nat)>): set<(nat, nat)>
  {
    if rules == [] then {} else Pairs(rules[..|rules| - 1]) + {rules[|rules| - 1]}
  }

  /** One more rule adds its pair and its two pages. */
  lemma RulesNext(rules: seq<(nat, nat)>, k: nat)
    requires k < |rules|
    ensures Pages(rules[..k + 1]) == Pages(rules[..k]) + {rules[k].0, rules[k].1}
    ensures Pairs(rules[..k + 1]) == Pairs(rules[..k]) + {rules[k]}
  {
    assert rules[..k + 1][..k] == rules[..k];
  }

  /** `parse_rules` after splitting the text: each rule's pages become nodes and the rule an edge. */
  method BuildRules(rules: seq<(nat, nat)>) returns (g: Graph)
    ensures fresh(g) && g.Valid()
    ensures g.edgeSet == Pairs(rules) && g.index.Keys == Pages(rules)
  {
    g := new Graph();
    for k := 0 to |rules|
      invariant fresh(g) && g.Valid()
      invariant g.edgeSet == Pairs(rules[..k]) && g.index.Keys == Pages(rules[..k])
    {
      var (source, target) := rules[k];
      RulesNext(rules, k);
      g.AddRule(source, target);
    }
    assert rules[..|rules|] == rules;
  }

  /** One more page adds itself to the pages seen. */
  lemma ElemsNext(values: seq<nat>, k: nat)
    requires k < |values|
    ensures Elems(values[..k + 1]) == Elems(values[..k]) + {values[k]}
  {
    assert values[..k + 1] == values[..k] + [values[k]];
  }

  /** Adding one more element to a union of a base and a part. */
  lemma Regroup<T>(base: set<T>, part: set<T>, more: set<T>, part': set<T>, before: set<T>, after: set<T>)
    requires part' == part + more && before == base + part && after == before + more
    ensures after == base + part'
  {
  }

  /** The page at `i` paired with the one after it. */
  function Consecutive(values: seq<nat>, i: nat): (nat, nat)
    requires i + 1 < |values|
  {
    (values[i], values[i + 1])
  }

  /** The pairs of consecutive pages of an update, gathered from its end. */
  function Chain(values: seq<nat>): set<(nat, nat)>
  {
    if |values| < 2 then {} else Chain(values[..|values| - 1]) + {Consecutive(values, |values| - 2)}
  }

  /** A pair belongs to the chain exactly when two neighbouring pages form it. */
  lemma {:induction false} ChainMember(values: seq<nat>, pair: (nat, nat))
    ensures pair in Chain(values) <==> exists i :: 0 <= i < |values| - 1 && pair == Consecutive(values, i)
  {
    if |values| >= 2 {
      var front := values[..|values| - 1];
      ChainMember(front, pair);
      if exists i :: 0 <= i < |front| - 1 && pair == Consecutive(front, i) {
        var i :| 0 <= i < |front| - 1 && pair == Consecutive(front, i);
        assert pair == Consecutive(values, i);
      }
      if exists i :: 0 <= i < |values| - 1 && pair == Consecutive(values, i) {
        var i :| 0 <= i < |values| - 1 && pair == Consecutive(values, i);
        if i < |values| - 2 {
          assert pair == Consecutive(front, i);
        }
      }
    }
  }

  /** One more page adds the pair it forms with the page before. */
  lemma ChainNext(values: seq<nat>, k: nat)
    requires 1 <= k < |values|
    ensures Chain(values[..k + 1]) == Chain(values[..k]) + {(values[k - 1], values[k])}
  {
    assert values[..k + 1][..k] == values[..k];
  }

  /**
   * `extend_graph`: a copy of the rules with every page of the update as a node and an edge from each
   * page to the next; the rules themselves are left as they were.
   */
  method ExtendGraph(g: Graph, values: seq<nat>) returns (r: Graph)
    requires g.Valid() && |values| >= 1
    ensures fresh(r) && r.Valid()
    ensures r.edgeSet == g.edgeSet + Chain(values)
    ensures r.index.Keys == g.index.Keys + Elems(values)
  {
    r := g.Clone();
    r.AddChain(values);
  }

  /** Some cycle of rule pairs runs through pages of the update only. */
  ghost predicate PairCycle(pairs: set<(nat, nat)>, values: seq<nat>)
  {
    exists path: seq<nat> :: |path| >= 2 && path[0] == path[|path| - 1] && PairPath(pairs, values, path)
  }

  /** `path` runs through pages of the update along pairs. */
  ghost predicate PairPath(pairs: set<(nat, nat)>, values: seq<nat>, path: seq<nat>)
  {
    && (forall k | 0 <= k < |path| :: path[k] in values)
    && (forall k | 0 <= k < |path| - 1 :: (path[k], path[k + 1]) in pairs)
  }

  /** On a consistent graph, a cycle through the update's nodes is a cycle of recorded pairs, and back. */
  lemma CycleByValue(index: map<nat, nat>, edgeSet: set<(nat, nat)>, nodes: seq<NodeData>, edges: seq<EdgeData>, values: seq<nat>)
    requires GraphOk(index, edgeSet, nodes, edges) && forall v | v in values :: v in index
    ensures HasCycle(nodes, edges, IndexSet(index, values)) <==> PairCycle(edgeSet, values)
  {
    if HasCycle(nodes, edges, IndexSet(index, values)) {
      CycleNamed(index, edgeSet, nodes, edges, values);
    }
    if PairCycle(edgeSet, values) {
      CycleIndexed(index, edgeSet, nodes, edges, values);
    }
  }

  /** A cycle of nodes, read through their values, is a cycle of recorded pairs. */
  lemma CycleNamed(index: map<nat, nat>, edgeSet: set<(nat, nat)>, nodes: seq<NodeData>, edges: seq<EdgeData>, values: seq<nat>)
    requires GraphOk(index, edgeSet, nodes, edges) && forall v | v in values :: v in index
    requires HasCycle(nodes, edges, IndexSet(index, values))
    ensures PairCycle(edgeSet, values)
  {
    var filter := IndexSet(index, values);
    var path :| |path| >= 2 && path[0] == path[|path| - 1] && Path(nodes, edges, filter, path);
    var named := seq(|path|, k requires 0 <= k < |path| => nodes[path[k]].value);
    forall k | 0 <= k < |named| ensures named[k] in values {
      assert path[k] in Indices(index, values);
      NameRequested(index, nodes, values, path[k]);
    }
    forall k | 0 <= k < |named| - 1 ensures (named[k], named[k + 1]) in edgeSet {
      SuccPair(index, edgeSet, nodes, edges, path[k], path[k + 1]);
    }
    assert PairPath(edgeSet, values, named);
  }

  /** A successor link between two nodes is a recorded pair of their values. */
  lemma SuccPair(index: map<nat, nat>, edgeSet: set<(nat, nat)>, nodes: seq<NodeData>, edges: seq<EdgeData>, i: nat, j: nat)
    requires GraphOk(index, edgeSet, nodes, edges) && i < |nodes| && j < |nodes| && j in Succ(nodes, edges, i)
    ensures (nodes[i].value, nodes[j].value) in edgeSet
  {
  }

  /** A cycle of recorded pairs, looked up in the index, is a cycle of nodes. */
  lemma CycleIndexed(index: map<nat, nat>, edgeSet: set<(nat, nat)>, nodes: seq<NodeData>, edges: seq<EdgeData>, values: seq<nat>)
    requires GraphOk(index, edgeSet, nodes, edges) && forall v | v in values :: v in index
    requires PairCycle(edgeSet, values)
    ensures HasCycle(nodes, edges, IndexSet(index, values))
  {
    var filter := IndexSet(index, values);
    var named :| |named| >= 2 && named[0] == named[|named| - 1] && PairPath(edgeSet, values, named);
    var path := seq(|named|, k requires 0 <= k < |named| => index[named[k]]);
    forall k | 0 <= k < |path| ensures path[k] in filter && path[k] < |nodes| {
      IndexOfRequested(index, nodes, values, named[k]);
    }
    forall k | 0 <= k < |path| - 1 ensures path[k + 1] in Succ(nodes, edges, path[k]) {
      PairStep(index, edgeSet, nodes, edges, named[k], named[k + 1]);
    }
    assert Path(nodes, edges, filter, path);
  }

  /** A requested value's node is among the requested nodes. */
  lemma IndexOfRequested(index: map<nat, nat>, nodes: seq<NodeData>, values: seq<nat>, v: nat)
    requires Indexed(index, nodes) && (forall v | v in values :: v in index) && v in values
    ensures index[v] in IndexSet(index, values) && index[v] < |nodes|
  {
    var i :| 0 <= i < |values| && values[i] == v;
    assert Indices(index, values)[i] == index[v];
  }

  /** A recorded pair is an edge between the nodes of its two values. */
  lemma PairStep(index: map<nat, nat>, edgeSet: set<(nat, nat)>, nodes: seq<NodeData>, edges: seq<EdgeData>, s: nat, t: nat)
    requires GraphOk(index, edgeSet, nodes, edges) && (s, t) in edgeSet
    ensures s in index && t in index && index[s] < |nodes| && index[t] in Succ(nodes, edges, index[s])
  {
    assert nodes[index[s]].value == s && nodes[index[t]].value == t;
  }

  /** Every rule between two pages of the update has its first page earlier: the update is correctly ordered. */
  predicate InOrder(rules: set<(nat, nat)>, values: seq<nat>)
  {
    forall i, j | 0 <= i < |values| && 0 <= j < |values| && (values[i], values[j]) in rules :: i < j
  }

  /** The position of a page in an update without repeats. */
  function Position(values: seq<nat>, v: nat): (i: nat)
    requires v in values
    ensures i < |values| && values[i] == v
  {
    if values[0] == v then 0 else 1 + Position(values[1..], v)
  }

  /** In a correctly ordered update, every pair of the extended rules moves forward in the update. */
  lemma {:induction false} Forward(rules: set<(nat, nat)>, values: seq<nat>, path: seq<nat>, k: nat)
    requires Distinct(values) && InOrder(rules, values) && PairPath(rules + Chain(values), values, path)
    requires 1 <= k < |path|
    ensures Position(values, path[0]) < Position(values, path[k])
  {
    var a, b := path[k - 1], path[k];
    assert (a, b) in rules + Chain(values);
    var pa, pb := Position(values, a), Position(values, b);
    ChainMember(values, (a, b));
    if (a, b) in Chain(values) {
      var i :| 0 <= i < |values| - 1 && (a, b) == Consecutive(values, i);
      assert pa == i && pb == i + 1;
    } else {
      assert (values[pa], values[pb]) in rules;
    }
    if k > 1 {
      Forward(rules, values, path, k - 1);
    }
  }

  /**
   * For an update without repeated pages: it is correctly ordered exactly when the rules extended with
   * its own consecutive pairs have no cycle through its pages.
   */
  lemma InOrderIffAcyclic(rules: set<(nat, nat)>, values: seq<nat>)
    requires Distinct(values)
    ensures InOrder(rules, values) <==> !PairCycle(rules + Chain(values), values)
  {
    var pairs := rules + Chain(values);
    if InOrder(rules, values) && PairCycle(pairs, values) {
      var path :| |path| >= 2 && path[0] == path[|path| - 1] && PairPath(pairs, values, path);
      Forward(rules, values, path, |path| - 1);
    }
    if !InOrder(rules, values) {
      var i, j :| 0 <= i < |values| && 0 <= j < |values| && (values[i], values[j]) in rules && i >= j;
      var path := values[j..i + 1] + [values[j]];
      forall k | 0 <= k < |path| - 1 ensures (path[k], path[k + 1]) in pairs {
        if k < i - j {
          assert (path[k], path[k + 1]) == Consecutive(values, j + k);
          ChainMember(values, (path[k], path[k + 1]));
        } else {
          assert (path[k], path[k + 1]) == (values[i], values[j]);
        }
      }
      assert PairPath(pairs, values, path);
    }
  }

  /** The page in the middle of an update (the later of the two middles when the length is even). */
  function Middle(u: seq<nat>): nat
    requires |u| >= 1
  {
    u[|u| / 2]
  }

  /** The sum of the middle pages of some updates. */
  function SumMiddles(us: seq<seq<nat>>): nat
    requires forall u | u in us :: |u| >= 1
  {
    if us == [] then 0 else SumMiddles(us[..|us| - 1]) + Middle(us[|us| - 1])
  }

  /** One more update adds its middle page. */
  lemma SumMiddlesNext(us: seq<seq<nat>>, u: seq<nat>)
    requires (forall v | v in us :: |v| >= 1) && |u| >= 1
    ensures SumMiddles(us + [u]) == SumMiddles(us) + Middle(u)
  {
    assert (us + [u])[..|us|] == us;
  }

  /** Part one's test for an update: its pages, joined in order, close no cycle with the rules. */
  ghost predicate Accepted(rules: set<(nat, nat)>, u: seq<nat>)
  {
    !PairCycle(rules + Chain(u), u)
  }

  /** The accepted updates, in their original order. */
  ghost function AcceptedUpdates(rules: set<(nat, nat)>, updates: seq<seq<nat>>): (r: seq<seq<nat>>)
    ensures forall u | u in r :: u in updates
  {
    if updates == [] then []
    else
      var front, u := AcceptedUpdates(rules, updates[..|updates| - 1]), updates[|updates| - 1];
      if Accepted(rules, u) then front + [u] else front
  }

  /** The rejected updates, in their original order. */
  ghost function RejectedUpdates(rules: set<(nat, nat)>, updates: seq<seq<nat>>): (r: seq<seq<nat>>)
    ensures forall u | u in r :: u in updates
  {
    if updates == [] then []
    else
      var front, u := RejectedUpdates(rules, updates[..|updates| - 1]), updates[|updates| - 1];
      if Accepted(rules, u) then front else front + [u]
  }

  /** Accepting and rejecting split the updates: each lands on exactly one side, as often as it occurs. */
  lemma {:induction false} SplitUpdates(rules: set<(nat, nat)>, updates: seq<seq<nat>>)
    ensures multiset(AcceptedUpdates(rules, updates)) + multiset(RejectedUpdates(rules, updates)) == multiset(updates)
    ensures forall u | u in AcceptedUpdates(rules, updates) :: Accepted(rules, u)
    ensures forall u | u in RejectedUpdates(rules, updates) :: !Accepted(rules, u)
  {
    if updates != [] {
      var front := updates[..|updates| - 1];
      SplitUpdates(rules, front);
      assert updates == front + [updates[|updates| - 1]];
    }
  }

  /** For updates without repeated pages, part one accepts exactly the correctly ordered ones. */
  lemma SplitByOrder(rules: set<(nat, nat)>, updates: seq<seq<nat>>)
    requires forall u | u in updates :: Distinct(u)
    ensures forall u | u in AcceptedUpdates(rules, updates) :: InOrder(rules, u)
    ensures forall u | u in RejectedUpdates(rules, updates) :: !InOrder(rules, u)
  {
    SplitUpdates(rules, updates);
    forall u | u in updates ensures Accepted(rules, u) <==> InOrder(rules, u) {
      InOrderIffAcyclic(rules, u);
    }
  }

  /** One more update joins the side its test puts it on. */
  lemma SplitNext(rules: set<(nat, nat)>, updates: seq<seq<nat>>, k: nat)
    requires k < |updates|
    ensures AcceptedUpdates(rules, updates[..k + 1])
      == AcceptedUpdates(rules, updates[..k]) + (if Accepted(rules, updates[k]) then [updates[k]] else [])
    ensures RejectedUpdates(rules, updates[..k + 1])
      == RejectedUpdates(rules, updates[..k]) + (if Accepted(rules, updates[k]) then [] else [updates[k]])
  {
    assert updates[..k + 1][..k] == updates[..k];
  }

  /** The partition test of `prob1_inner`: extend a copy of the rules with the update and look for a cycle through its pages. */
  method CheckUpdate(rules: Graph, u: seq<nat>) returns (ok: bool)
    requires rules.Valid() && |u| >= 1
    ensures ok <==> Accepted(rules.edgeSet, u)
  {
    var ext := ExtendGraph(rules, u);
    var filter := IndexSet(ext.index, u);
    var cyclic := ContainsCycle(ext, filter);
    CycleByValue(ext.index, ext.edgeSet, ext.nodes, ext.edges, u);
    ok := !cyclic;
  }

  /**
   * `prob1_inner`: each update extends a copy of the rule graph with its own consecutive pairs; those without a
   * cycle through their pages add up their middle pages, the others are kept for part two.
   */
  method Prob1(rules: Graph, updates: seq<seq<nat>>) returns (invalid: seq<seq<nat>>, res: nat)
    requires rules.Valid() && forall u | u in updates :: |u| >= 1
    ensures invalid == RejectedUpdates(rules.edgeSet, updates)
    ensures res == SumMiddles(AcceptedUpdates(rules.edgeSet, updates))
  {
    invalid, res := [], 0;
    ghost var valid: seq<seq<nat>> := [];
    for k := 0 to |updates|
      invariant invalid == RejectedUpdates(rules.edgeSet, updates[..k])
      invariant valid == AcceptedUpdates(rules.edgeSet, updates[..k])
      invariant (forall v | v in valid :: |v| >= 1) && res == SumMiddles(valid)
    {
      var u := updates[k];
      var ok := CheckUpdate(rules, u);
      SplitNext(rules.edgeSet, updates, k);
      if ok {
        SumMiddlesNext(valid, u);
        res := res + Middle(u);
        valid := valid + [u];
      } else {
        invalid := invalid + [u];
      }
    }
    assert updates[..|updates|] == updates;
  }

  /**
   * What part two asks of a reordered update: the same pages, each once, and, when the rules among them have no
   * cycle, every rule between two of them respected.
   */
  ghost predicate Corrected(rules: set<(nat, nat)>, values: seq<nat>, sorted: seq<nat>)
  {
    && (forall v :: v in sorted <==> v in values)
    && Distinct(sorted)
    && (!PairCycle(rules, values) ==> InOrder(rules, sorted))
  }

  /** An order that follows every edge between the nodes of its values respects every recorded pair among them. */
  lemma OrderByValue(index: map<nat, nat>, edgeSet: set<(nat, nat)>, nodes: seq<NodeData>, edges: seq<EdgeData>, res: seq<nat>)
    requires GraphOk(index, edgeSet, nodes, edges) && forall v | v in res :: v in index
    requires forall i, j | 0 <= i < |res| && 0 <= j < |res| && index[res[j]] in Succ(nodes, edges, index[res[i]]) :: i < j
    ensures InOrder(edgeSet, res)
  {
    forall i, j | 0 <= i < |res| && 0 <= j < |res| && (res[i], res[j]) in edgeSet ensures i < j {
      PairStep(index, edgeSet, nodes, edges, res[i], res[j]);
    }
  }

  /** The sorted form of one update meets part two's requirement. */
  method SortUpdate(rules: Graph, values: seq<nat>) returns (sorted: seq<nat>)
    requires rules.Valid() && forall v | v in values :: v in rules.index
    ensures Corrected(rules.edgeSet, values, sorted)
  {
    sorted := TopologicalSort(rules, values);
    CycleByValue(rules.index, rules.edgeSet, rules.nodes, rules.edges, values);
    if !PairCycle(rules.edgeSet, values) {
      OrderByValue(rules.index, rules.edgeSet, rules.nodes, rules.edges, sorted);
    }
  }

  /** The first updates, reordered: each non-empty and meeting part two's requirement. */
  ghost predicate AllCorrected(rules: set<(nat, nat)>, invalid: seq<seq<nat>>, sorted: seq<seq<nat>>)
  {
    |sorted| <= |invalid| && forall k | 0 <= k < |sorted| :: |sorted[k]| >= 1 && Corrected(rules, invalid[k], sorted[k])
  }

  /** Reordering one more update keeps the requirement. */
  lemma CorrectedNext(rules: set<(nat, nat)>, invalid: seq<seq<nat>>, sorted: seq<seq<nat>>, s: seq<nat>)
    requires AllCorrected(rules, invalid, sorted) && |sorted| < |invalid|
    requires |s| >= 1 && Corrected(rules, invalid[|sorted|], s)
    ensures AllCorrected(rules, invalid, sorted + [s])
  {
  }

  /** `prob2_inner`: each rejected update is sorted against the rule graph alone, and the middle pages add up. */
  method Prob2(rules: Graph, invalid: seq<seq<nat>>) returns (res: nat, ghost sorted: seq<seq<nat>>)
    requires rules.Valid()
    requires forall u | u in invalid :: |u| >= 1 && forall v | v in u :: v in rules.index
    ensures |sorted| == |invalid| && AllCorrected(rules.edgeSet, invalid, sorted)
    ensures res == SumMiddles(sorted)
  {
    res, sorted := 0, [];
    for k := 0 to |invalid|
      invariant |sorted| == k && AllCorrected(rules.edgeSet, invalid, sorted)
      invariant res == SumMiddles(sorted)
    {
      var s := SortUpdate(rules, invalid[k]);
      assert invalid[k][0] in s;
      CorrectedNext(rules.edgeSet, invalid, sorted, s);
      SumMiddlesNext(sorted, s);
      res := res + Middle(s);
      sorted := sorted + [s];
    }
  }
}
