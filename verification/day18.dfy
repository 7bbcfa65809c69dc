/**
 * RAM run (src/day18.rs): bytes fall onto a memory grid at positions listed as "x,y" lines;
 * `build_graph` marks them '#'. `shortest_path` runs Dijkstra from the top-left cell to the
 * bottom-right one, stepping north, east, south or west onto cells that are not '#' at cost 1,
 * with a max-heap whose order is reversed on cost.
 */
module Day18 {
  import opened Common
  import opened Text
  import opened Day4
  import opened Day10
  import opened Day12

  const Wall: Byte := 35
  const Space: Byte := 46

  // The heap order

  /** A heap entry: `position` reached at `cost`. */
  datatype State = State(cost: nat, position: TextPoint)

  /** `State::cmp`: the cheaper state is the greater one; equal costs fall back to the position order. */
  function Cmp(s: State, t: State): (r: Ordering)
    ensures r == Eq <==> s == t
    ensures r != Lt ==> s.cost <= t.cost
  {
    ThenWith(CmpNat(t.cost, s.cost), CmpPoint(s.position, t.position))
  }

  /** `Cmp` is a total order consistent with equality, and a state no smaller than another costs no more. */
  lemma CmpOrder(s: State, t: State, u: State)
    ensures Cmp(s, t) == Eq <==> s == t
    ensures Cmp(s, t) == Gt <==> Cmp(t, s) == Lt
    ensures Cmp(s, t) == Gt && Cmp(t, u) == Gt ==> Cmp(s, u) == Gt
    ensures Cmp(s, t) != Lt ==> s.cost <= t.cost
  {
  }

  /** `s` is what `BinaryHeap::pop` removes: an entry no other entry is greater than. */
  predicate IsTop(heap: multiset<State>, s: State)
  {
    s in heap && forall t | t in heap :: Cmp(t, s) != Gt
  }

  /** A non-empty heap has a top entry. */
  lemma {:induction false} TopExists(heap: multiset<State>) returns (s: State)
    requires heap != multiset{}
    ensures IsTop(heap, s)
    decreases |heap|
  {
    var x :| x in heap;
    var rest := heap - multiset{x};
    if rest == multiset{} {
      assert heap == multiset{x};
      CmpOrder(x, x, x);
      s := x;
    } else {
      var y := TopExists(rest);
      if Cmp(x, y) == Gt {
        forall t | t in heap ensures Cmp(t, x) != Gt {
          CmpOrder(t, x, y);
          CmpOrder(x, x, x);
        }
        s := x;
      } else {
        forall t | t in heap ensures Cmp(t, y) != Gt {
          if t != x {
            assert t in rest;
          }
        }
        s := y;
      }
    }
  }

  /** The top of the heap is an entry of least cost: the max-heap pops like a min-heap on cost. */
  lemma TopCheapest(heap: multiset<State>, s: State)
    requires IsTop(heap, s)
    ensures forall t | t in heap :: s.cost <= t.cost
  {
    forall t | t in heap ensures s.cost <= t.cost {
      CmpOrder(t, s, t);
      CmpOrder(s, t, s);
    }
  }

  // Edges

  /** A cell that can be stepped onto: it is not '#'. */
  predicate Passable(g: seq<seq<Byte>>, p: TextPoint)
    requires Map(g) && InCorner(p, Corner(g))
  {
    CornerInGrid(g, p);
    g[p.row][p.col] != Wall
  }

  /** The `filter_map` of `find_edges` over candidate moves: a step of cost 1 onto each one that is not '#'. */
  function Steps(g: seq<seq<Byte>>, qs: seq<TextPoint>): seq<(nat, TextPoint)>
    requires Map(g) && Cells(g, qs)
  {
    if qs == [] then []
    else
      var last := qs[|qs| - 1];
      var init := Steps(g, qs[..|qs| - 1]);
      if Passable(g, last) then init + [(1, last)] else init
  }

  /** The steps are the passable candidates, each at cost 1. */
  lemma {:induction false} StepsIn(g: seq<seq<Byte>>, qs: seq<TextPoint>)
    requires Map(g) && Cells(g, qs)
    ensures forall e | e in Steps(g, qs) :: e.0 == 1 && e.1 in qs && InCorner(e.1, Corner(g)) && Passable(g, e.1)
    ensures forall q | q in qs && InCorner(q, Corner(g)) && Passable(g, q) :: (1, q) in Steps(g, qs)
  {
    if qs != [] {
      var init := qs[..|qs| - 1];
      StepsIn(g, init);
      assert qs == init + [qs[|qs| - 1]];
    }
  }

  /** `find_edges(graph, p)`: every edge is a step of cost 1 out of `p` along a walk. */
  function FindEdges(g: seq<seq<Byte>>, p: TextPoint): (r: seq<(nat, TextPoint)>)
    requires Map(g) && InCorner(p, Corner(g))
    ensures forall i | 0 <= i < |r| :: r[i].0 == 1 && Edge(g, p, r[i].1)
  {
    MovesAreNeighbours(g, p);
    NeighboursCells(g, p, 0);
    StepsIn(g, Moves(g, p));
    Steps(g, Moves(g, p))
  }

  /** One step of a walk: to an in-grid north, east, south or west neighbour that is not '#'. */
  predicate Edge(g: seq<seq<Byte>>, u: TextPoint, w: TextPoint)
    requires Map(g)
  {
    InCorner(u, Corner(g)) && InCorner(w, Corner(g)) && Adjacent4(u, w) && Passable(g, w)
  }

  /** `find_edges` yields exactly the walk steps out of `p`, each at cost 1. */
  lemma FindEdgesSpec(g: seq<seq<Byte>>, p: TextPoint)
    requires Map(g) && InCorner(p, Corner(g))
    ensures forall e :: e in FindEdges(g, p) <==> e.0 == 1 && Edge(g, p, e.1)
  {
    MovesAreNeighbours(g, p);
    NeighboursCells(g, p, 0);
    StepsIn(g, Moves(g, p));
    forall e: (nat, TextPoint) | e.0 == 1 && Edge(g, p, e.1) ensures e in FindEdges(g, p) {
      NeighboursComplete(g, p, e.1);
    }
  }

  // Walks

  /** The search starts in the top-left cell. */
  const Start := TextPoint(0, 0)

  /** The search ends in the bottom-right cell. */
  function Goal(g: seq<seq<Byte>>): TextPoint
    requires Map(g)
  {
    Corner(g)
  }

  /** `path` is a walk from the start to `v`; it takes `|path| - 1` steps. */
  predicate WalkTo(g: seq<seq<Byte>>, path: seq<TextPoint>, v: TextPoint)
    requires Map(g)
  {
    |path| >= 1 && path[0] == Start && path[|path| - 1] == v
    && forall i | 0 <= i < |path| - 1 :: Edge(g, path[i], path[i + 1])
  }

  /** Some walk reaches `v` in `n` steps. */
  ghost predicate Reaches(g: seq<seq<Byte>>, v: TextPoint, n: nat)
    requires Map(g)
  {
    exists path :: WalkTo(g, path, v) && |path| == n + 1
  }

  /** No walk reaches `v` in fewer than `n` steps. */
  ghost predicate NoShorter(g: seq<seq<Byte>>, v: TextPoint, n: nat)
    requires Map(g)
  {
    forall path | WalkTo(g, path, v) :: n + 1 <= |path|
  }

  /** No walk reaches `v`. */
  ghost predicate Unreachable(g: seq<seq<Byte>>, v: TextPoint)
    requires Map(g)
  {
    forall path :: !WalkTo(g, path, v)
  }

  /** A walk cut after its `j`-th cell is a walk to that cell. */
  lemma PrefixWalk(g: seq<seq<Byte>>, path: seq<TextPoint>, v: TextPoint, j: nat)
    requires Map(g) && WalkTo(g, path, v) && 1 <= j <= |path|
    ensures WalkTo(g, path[..j], path[j - 1])
  {
    var pre := path[..j];
    forall i | 0 <= i < |pre| - 1 ensures Edge(g, pre[i], pre[i + 1]) {
      assert pre[i] == path[i] && pre[i + 1] == path[i + 1];
    }
  }

  /** A walk to `u` followed by a step from `u` is a walk. */
  lemma ExtendWalk(g: seq<seq<Byte>>, path: seq<TextPoint>, u: TextPoint, w: TextPoint)
    requires Map(g) && WalkTo(g, path, u) && Edge(g, u, w)
    ensures WalkTo(g, path + [w], w)
  {
    var ext := path + [w];
    forall i | 0 <= i < |ext| - 1 ensures Edge(g, ext[i], ext[i + 1]) {
      if i < |path| - 1 {
        assert ext[i] == path[i] && ext[i + 1] == path[i + 1];
      }
    }
  }

  // The search state

  /** `c < dist` for an entry of `dist`, where `None` stands for the `usize::MAX` of an unreached cell. */
  predicate Below(c: nat, d: Option<nat>)
  {
    d.None? || c < d.value
  }

  /** `c > dist` for an entry of `dist`; never so for an unreached cell. */
  predicate Above(c: nat, d: Option<nat>)
  {
    d.Some? && d.value < c
  }

  /** The entry is reached, at no more than `c`. */
  predicate Within(d: Option<nat>, c: nat)
  {
    d.Some? && d.value <= c
  }

  /** `dist` has an entry for every cell and nothing else. */
  ghost predicate Keys(g: seq<seq<Byte>>, dist: map<TextPoint, Option<nat>>)
    requires Map(g)
  {
    forall q :: q in dist <==> InCorner(q, Corner(g))
  }

  /** Every heap entry costs at least the distance recorded for its cell. */
  ghost predicate HeapOk(dist: map<TextPoint, Option<nat>>, heap: multiset<State>)
  {
    forall t | t in heap :: t.position in dist && Within(dist[t.position], t.cost)
  }

  /** Every recorded distance is the length of a walk, the one `paths` keeps for that cell. */
  ghost predicate PathsOk(g: seq<seq<Byte>>, dist: map<TextPoint, Option<nat>>, paths: map<TextPoint, seq<TextPoint>>)
    requires Map(g)
  {
    forall v | v in dist && dist[v].Some? :: v in paths && WalkTo(g, paths[v], v) && |paths[v]| == dist[v].value + 1
  }

  /** Every reached cell not yet expanded is on the heap at its recorded distance. */
  ghost predicate Queued(dist: map<TextPoint, Option<nat>>, heap: multiset<State>, expanded: set<TextPoint>)
  {
    forall v | v in dist && v !in expanded && dist[v].Some? :: State(dist[v].value, v) in heap
  }

  /** The expanded cells have their final distance: no walk to them is shorter. */
  ghost predicate Settled(g: seq<seq<Byte>>, dist: map<TextPoint, Option<nat>>, expanded: set<TextPoint>)
    requires Map(g)
  {
    forall u | u in expanded :: u in dist && dist[u].Some? && NoShorter(g, u, dist[u].value)
  }

  /** Every step out of an expanded cell has been relaxed. */
  ghost predicate Relaxed(g: seq<seq<Byte>>, dist: map<TextPoint, Option<nat>>, expanded: set<TextPoint>)
    requires Map(g)
  {
    forall u, w | u in expanded && u in dist && dist[u].Some? && Edge(g, u, w) ::
      w in dist && Within(dist[w], dist[u].value + 1)
  }

  /** The loop invariant of `shortest_path`, with the ghost set of expanded cells and a witness walk per reached cell. */
  ghost predicate Inv(g: seq<seq<Byte>>, dist: map<TextPoint, Option<nat>>, heap: multiset<State>,
                      expanded: set<TextPoint>, paths: map<TextPoint, seq<TextPoint>>)
  {
    && Map(g) && Keys(g, dist) && Start in dist && dist[Start] == Some(0)
    && HeapOk(dist, heap) && PathsOk(g, dist, paths) && Queued(dist, heap, expanded)
    && Settled(g, dist, expanded) && Relaxed(g, dist, expanded) && Goal(g) !in expanded
  }

  /** The initial `dist`: every cell unreached, except the start at 0. */
  function InitialDist(g: seq<seq<Byte>>): map<TextPoint, Option<nat>>
    requires Map(g)
  {
    (map q | q in Points(g) :: None)[Start := Some(0)]
  }

  /** The search starts with the start cell alone on the heap, at cost 0, and nothing expanded. */
  lemma InvStart(g: seq<seq<Byte>>)
    requires Map(g)
    ensures Inv(g, InitialDist(g), multiset{State(0, Start)}, {}, map[Start := [Start]])
  {
    var dist := InitialDist(g);
    forall v | v in dist && dist[v].Some? ensures v == Start {
    }
    assert WalkTo(g, [Start], Start);
  }

  /** The first cell off the expanded set along a path: all cells before it are expanded. */
  lemma {:induction false} Boundary(path: seq<TextPoint>, expanded: set<TextPoint>, k: nat) returns (j: nat)
    requires k < |path| && path[k] !in expanded
    ensures j <= k && path[j] !in expanded && (j == 0 || path[j - 1] in expanded)
    decreases k
  {
    if k == 0 || path[k - 1] in expanded {
      j := k;
    } else {
      j := Boundary(path, expanded, k - 1);
    }
  }

  /**
   * Every walk to a cell not yet expanded passes a cell not yet expanded that is on the heap at a
   * distance no larger than the walk's length so far.
   */
  lemma Frontier(g: seq<seq<Byte>>, dist: map<TextPoint, Option<nat>>, heap: multiset<State>,
                 expanded: set<TextPoint>, paths: map<TextPoint, seq<TextPoint>>, path: seq<TextPoint>, v: TextPoint)
      returns (w: TextPoint)
    requires Inv(g, dist, heap, expanded, paths) && WalkTo(g, path, v) && v !in expanded
    ensures w in dist && w !in expanded && dist[w].Some? && dist[w].value + 1 <= |path|
    ensures State(dist[w].value, w) in heap
  {
    var j := Boundary(path, expanded, |path| - 1);
    w := path[j];
    if j > 0 {
      var u := path[j - 1];
      PrefixWalk(g, path, v, j);
      assert Edge(g, u, w);
    }
  }

  /** While a walk to `v` exists and `v` is not expanded, the heap is not empty. */
  lemma FrontierNonEmpty(g: seq<seq<Byte>>, dist: map<TextPoint, Option<nat>>, heap: multiset<State>,
                         expanded: set<TextPoint>, paths: map<TextPoint, seq<TextPoint>>, path: seq<TextPoint>, v: TextPoint)
    requires Inv(g, dist, heap, expanded, paths) && v !in expanded
    ensures WalkTo(g, path, v) ==> heap != multiset{}
  {
    if WalkTo(g, path, v) {
      var w := Frontier(g, dist, heap, expanded, paths, path, v);
    }
  }

  /** The cost of the top entry, when it is the goal, is the length of a shortest walk to the goal. */
  lemma GoalFound(g: seq<seq<Byte>>, dist: map<TextPoint, Option<nat>>, heap: multiset<State>,
                  expanded: set<TextPoint>, paths: map<TextPoint, seq<TextPoint>>, s: State)
    requires Inv(g, dist, heap, expanded, paths) && IsTop(heap, s) && s.position == Goal(g)
    ensures Reaches(g, Goal(g), s.cost) && NoShorter(g, Goal(g), s.cost) && !Unreachable(g, Goal(g))
  {
    var goal := Goal(g);
    TopCheapest(heap, s);
    assert State(dist[goal].value, goal) in heap;
    assert WalkTo(g, paths[goal], goal);
    forall path | WalkTo(g, path, goal) ensures s.cost + 1 <= |path| {
      var w := Frontier(g, dist, heap, expanded, paths, path, goal);
    }
  }

  /** With the heap drained and the goal never expanded, no walk reaches the goal. */
  lemma Drained(g: seq<seq<Byte>>, dist: map<TextPoint, Option<nat>>,
                expanded: set<TextPoint>, paths: map<TextPoint, seq<TextPoint>>)
    requires Inv(g, dist, multiset{}, expanded, paths)
    ensures Unreachable(g, Goal(g))
  {
    forall path ensures !WalkTo(g, path, Goal(g)) {
      FrontierNonEmpty(g, dist, multiset{}, expanded, paths, path, Goal(g));
    }
  }

  /** Dropping an entry that costs more than its cell's distance keeps the invariant. */
  lemma Stale(g: seq<seq<Byte>>, dist: map<TextPoint, Option<nat>>, heap: multiset<State>,
              expanded: set<TextPoint>, paths: map<TextPoint, seq<TextPoint>>, s: State)
    requires Inv(g, dist, heap, expanded, paths) && s in heap
    requires s.position in dist && Above(s.cost, dist[s.position])
    ensures Inv(g, dist, heap - multiset{s}, expanded, paths)
  {
    var rest := heap - multiset{s};
    forall v | v in dist && v !in expanded && dist[v].Some? ensures State(dist[v].value, v) in rest {
      assert State(dist[v].value, v) != s;
    }
  }

  // Relaxation

  /** `dist'` is `dist` with some steps out of `p` lowered to `c + 1`, each only where that is an improvement. */
  ghost predicate Lowered(g: seq<seq<Byte>>, p: TextPoint, c: nat, dist: map<TextPoint, Option<nat>>, dist': map<TextPoint, Option<nat>>)
    requires Map(g)
  {
    forall v | v in dist :: v in dist' && (dist'[v] == dist[v] || (Edge(g, p, v) && Below(c + 1, dist[v]) && dist'[v] == Some(c + 1)))
  }

  /** After relaxing, every step out of `p` leads to a cell reached within `c + 1`. */
  ghost predicate Reached(g: seq<seq<Byte>>, p: TextPoint, c: nat, dist: map<TextPoint, Option<nat>>, dist': map<TextPoint, Option<nat>>)
    requires Map(g)
  {
    forall v | v in dist && Edge(g, p, v) :: v in dist' && Within(dist'[v], c + 1)
  }

  /** The heap gained an entry at cost `c + 1` for each lowered cell, and nothing else. */
  ghost predicate Pushed(c: nat, dist: map<TextPoint, Option<nat>>, dist': map<TextPoint, Option<nat>>,
                         heap: multiset<State>, heap': multiset<State>)
  {
    && heap <= heap'
    && (forall t | t in heap' - heap ::
          t.cost == c + 1 && t.position in dist && t.position in dist' && dist'[t.position] == Some(c + 1)
          && dist[t.position] != dist'[t.position])
    && (forall v | v in dist && v in dist' && dist'[v] != dist[v] :: State(c + 1, v) in heap')
  }

  /**
   * The inner loop of `shortest_path` for a popped cell `p` at cost `c`: every edge whose target it
   * improves is pushed and its `dist` lowered, strictly (`<`), so `dist` never increases.
   */
  method Relax(g: seq<seq<Byte>>, p: TextPoint, c: nat, dist: map<TextPoint, Option<nat>>, heap: multiset<State>)
      returns (dist': map<TextPoint, Option<nat>>, heap': multiset<State>)
    requires Map(g) && InCorner(p, Corner(g)) && Keys(g, dist)
    ensures Keys(g, dist')
    ensures Lowered(g, p, c, dist, dist') && Reached(g, p, c, dist, dist') && Pushed(c, dist, dist', heap, heap')
  {
    var edges := FindEdges(g, p);
    dist', heap' := dist, heap;
    for i := 0 to |edges|
      invariant dist'.Keys == dist.Keys
      invariant Lowered(g, p, c, dist, dist') && Pushed(c, dist, dist', heap, heap')
      invariant forall k | 0 <= k < i :: edges[k].1 in dist' && Within(dist'[edges[k].1], c + 1)
    {
      var (nextCost, nextPosition) := edges[i];
      assert nextCost == 1 && Edge(g, p, nextPosition) by {
        assert edges[i] in edges;
      }
      var next := State(c + nextCost, nextPosition);
      ghost var (d0, h0) := (dist', heap');
      if Below(next.cost, dist'[nextPosition]) {
        heap' := heap' + multiset{next};
        dist' := dist'[nextPosition := Some(next.cost)];
      }
      RelaxStep(g, p, c, dist, heap, edges, i, d0, h0, nextPosition, dist', heap');
    }
    AllEdgesRelaxed(g, p, c, dist, dist', edges);
  }

  /** Once every edge of `find_edges` has been relaxed, every step out of `p` reaches a cell within `c + 1`. */
  lemma AllEdgesRelaxed(g: seq<seq<Byte>>, p: TextPoint, c: nat, dist: map<TextPoint, Option<nat>>,
                        dist': map<TextPoint, Option<nat>>, edges: seq<(nat, TextPoint)>)
    requires Map(g) && InCorner(p, Corner(g)) && edges == FindEdges(g, p)
    requires forall k | 0 <= k < |edges| :: edges[k].1 in dist' && Within(dist'[edges[k].1], c + 1)
    ensures Reached(g, p, c, dist, dist')
  {
    FindEdgesSpec(g, p);
    forall v | v in dist && Edge(g, p, v) ensures v in dist' && Within(dist'[v], c + 1) {
      assert (1, v) in edges;
    }
  }

  /** One iteration of the inner loop, for the `i`-th edge, a step from `p` to `v`, keeps the loop invariant. */
  lemma RelaxStep(g: seq<seq<Byte>>, p: TextPoint, c: nat, dist: map<TextPoint, Option<nat>>, heap: multiset<State>,
                  edges: seq<(nat, TextPoint)>, i: nat,
                  d0: map<TextPoint, Option<nat>>, h0: multiset<State>, v: TextPoint,
                  d1: map<TextPoint, Option<nat>>, h1: multiset<State>)
    requires Map(g) && Keys(g, dist) && d0.Keys == dist.Keys && Edge(g, p, v)
    requires Lowered(g, p, c, dist, d0) && Pushed(c, dist, d0, heap, h0)
    requires i < |edges| && edges[i].1 == v
    requires forall k | 0 <= k < i :: edges[k].1 in d0 && Within(d0[edges[k].1], c + 1)
    requires v in d0
    requires || (Below(c + 1, d0[v]) && d1 == d0[v := Some(c + 1)] && h1 == h0 + multiset{State(c + 1, v)})
             || (!Below(c + 1, d0[v]) && d1 == d0 && h1 == h0)
    ensures d1.Keys == dist.Keys && Lowered(g, p, c, dist, d1) && Pushed(c, dist, d1, heap, h1)
    ensures forall k | 0 <= k <= i :: edges[k].1 in d1 && Within(d1[edges[k].1], c + 1)
  {
    if Below(c + 1, d0[v]) {
      assert d0[v] == dist[v];
      var t := State(c + 1, v);
      forall u | u in h1 - heap
        ensures u.cost == c + 1 && u.position in dist && u.position in d1 && d1[u.position] == Some(c + 1)
        ensures dist[u.position] != d1[u.position]
      {
        if u != t {
          assert u in h0 - heap;
        }
      }
    }
    KeepPrefix(c, edges, i, d0, d1);
  }

  /** Lowering the `i`-th edge's target to `c + 1`, or leaving it within `c + 1`, keeps the earlier targets within `c + 1`. */
  lemma KeepPrefix(c: nat, edges: seq<(nat, TextPoint)>, i: nat, d0: map<TextPoint, Option<nat>>, d1: map<TextPoint, Option<nat>>)
    requires i < |edges| && edges[i].1 in d0
    requires forall k | 0 <= k < i :: edges[k].1 in d0 && Within(d0[edges[k].1], c + 1)
    requires d1 == d0[edges[i].1 := Some(c + 1)] || (d1 == d0 && Within(d0[edges[i].1], c + 1))
    ensures forall k | 0 <= k <= i :: edges[k].1 in d1 && Within(d1[edges[k].1], c + 1)
  {
    forall k | 0 <= k <= i ensures edges[k].1 in d1 && Within(d1[edges[k].1], c + 1) {
      if k < i {
        assert edges[k].1 in d0 && Within(d0[edges[k].1], c + 1);
      }
    }
  }

  /** The witness walks after expanding `p`: a lowered cell is reached through `p`. */
  ghost function ExtendPaths(paths: map<TextPoint, seq<TextPoint>>, p: TextPoint,
                             dist: map<TextPoint, Option<nat>>, dist': map<TextPoint, Option<nat>>): map<TextPoint, seq<TextPoint>>
    requires p in paths
  {
    paths + map v | v in dist && v in dist' && dist'[v] != dist[v] :: paths[p] + [v]
  }

  /** Expanding the top entry, at its cell's distance, settles that cell and keeps the invariant. */
  lemma Expand(g: seq<seq<Byte>>, dist: map<TextPoint, Option<nat>>, heap: multiset<State>,
               expanded: set<TextPoint>, paths: map<TextPoint, seq<TextPoint>>, s: State,
               dist': map<TextPoint, Option<nat>>, heap': multiset<State>)
    requires Inv(g, dist, heap, expanded, paths) && IsTop(heap, s) && s.position != Goal(g)
    requires s.position in dist && dist[s.position] == Some(s.cost)
    requires Keys(g, dist') && Lowered(g, s.position, s.cost, dist, dist') && Reached(g, s.position, s.cost, dist, dist')
    requires Pushed(s.cost, dist, dist', heap - multiset{s}, heap')
    ensures s.position in paths
    ensures Inv(g, dist', heap', expanded + {s.position}, ExtendPaths(paths, s.position, dist, dist'))
    ensures dist'.Keys == dist.Keys
    ensures s.position in expanded ==> heap' == heap - multiset{s}
  {
    var p, c := s.position, s.cost;
    var rest := heap - multiset{s};
    assert Goal(g) !in expanded + {p};
    assert dist'.Keys == dist.Keys;
    ExpandSettled(g, dist, heap, expanded, paths, s, dist');
    KeepQueued(dist, heap, expanded, s, c, dist', heap');
    KeepPaths(g, dist, paths, p, c, dist');
    assert Start in dist' && dist'[Start] == Some(0) by {
      assert Start in dist && dist[Start] == Some(0);
    }
    if p in expanded {
      NothingPushed(g, dist, expanded, p, c, dist', rest, heap');
    }
  }

  /** Expanding the top entry settles its cell and relaxes its steps, keeping the cells expanded before. */
  lemma ExpandSettled(g: seq<seq<Byte>>, dist: map<TextPoint, Option<nat>>, heap: multiset<State>,
                      expanded: set<TextPoint>, paths: map<TextPoint, seq<TextPoint>>, s: State,
                      dist': map<TextPoint, Option<nat>>)
    requires Inv(g, dist, heap, expanded, paths) && IsTop(heap, s)
    requires s.position in dist && dist[s.position] == Some(s.cost)
    requires Keys(g, dist') && Lowered(g, s.position, s.cost, dist, dist') && Reached(g, s.position, s.cost, dist, dist')
    ensures Settled(g, dist', expanded + {s.position}) && Relaxed(g, dist', expanded + {s.position})
  {
    SettleTop(g, dist, heap, expanded, paths, s);
    KeepSettled(g, dist, expanded, paths, s.position, s.cost, dist');
    KeepRelaxed(g, dist, expanded, s.position, s.cost, dist');
  }

  /** The top entry, at its cell's distance, gives that cell its final distance. */
  lemma SettleTop(g: seq<seq<Byte>>, dist: map<TextPoint, Option<nat>>, heap: multiset<State>,
                  expanded: set<TextPoint>, paths: map<TextPoint, seq<TextPoint>>, s: State)
    requires Inv(g, dist, heap, expanded, paths) && IsTop(heap, s)
    requires s.position in dist && dist[s.position] == Some(s.cost)
    ensures NoShorter(g, s.position, s.cost)
  {
    if s.position !in expanded {
      TopCheapest(heap, s);
      forall path | WalkTo(g, path, s.position) ensures s.cost + 1 <= |path| {
        var w := Frontier(g, dist, heap, expanded, paths, path, s.position);
      }
    }
  }

  /** Relaxing from a cell settled at `c` changes no expanded cell and settles them all, with it. */
  lemma KeepSettled(g: seq<seq<Byte>>, dist: map<TextPoint, Option<nat>>,
                    expanded: set<TextPoint>, paths: map<TextPoint, seq<TextPoint>>, p: TextPoint, c: nat,
                    dist': map<TextPoint, Option<nat>>)
    requires Map(g) && Keys(g, dist) && Settled(g, dist, expanded) && PathsOk(g, dist, paths)
    requires p in dist && dist[p] == Some(c) && NoShorter(g, p, c)
    requires Lowered(g, p, c, dist, dist')
    ensures forall u | u in expanded + {p} :: u in dist' && dist'[u] == dist[u]
    ensures Settled(g, dist', expanded + {p})
  {
    forall u | u in expanded + {p} ensures u in dist' && dist'[u] == dist[u] {
      if Edge(g, p, u) {
        ExtendWalk(g, paths[p], p, u);
      }
    }
  }

  /** After expanding `s`, every entry still costs at least its cell's distance, and every reached cell not expanded is queued. */
  lemma KeepQueued(dist: map<TextPoint, Option<nat>>, heap: multiset<State>, expanded: set<TextPoint>, s: State, c: nat,
                   dist': map<TextPoint, Option<nat>>, heap': multiset<State>)
    requires HeapOk(dist, heap) && Queued(dist, heap, expanded) && s in heap
    requires dist'.Keys == dist.Keys && forall v | v in dist :: dist'[v] == dist[v] || (Below(c + 1, dist[v]) && dist'[v] == Some(c + 1))
    requires Pushed(c, dist, dist', heap - multiset{s}, heap')
    ensures HeapOk(dist', heap') && Queued(dist', heap', expanded + {s.position})
  {
    var rest := heap - multiset{s};
    forall t | t in heap' ensures t.position in dist' && Within(dist'[t.position], t.cost) {
      if t !in rest {
        assert t in heap' - rest;
      }
    }
    forall v | v in dist' && v !in expanded + {s.position} && dist'[v].Some? ensures State(dist'[v].value, v) in heap' {
      if dist'[v] == dist[v] {
        assert State(dist[v].value, v) != s;
        assert State(dist[v].value, v) in rest;
      }
    }
  }

  /** The witness walks stay walks of the recorded lengths. */
  lemma KeepPaths(g: seq<seq<Byte>>, dist: map<TextPoint, Option<nat>>, paths: map<TextPoint, seq<TextPoint>>,
                  p: TextPoint, c: nat, dist': map<TextPoint, Option<nat>>)
    requires Map(g) && PathsOk(g, dist, paths) && p in dist && dist[p] == Some(c)
    requires dist'.Keys == dist.Keys && Lowered(g, p, c, dist, dist')
    ensures p in paths && PathsOk(g, dist', ExtendPaths(paths, p, dist, dist'))
  {
    var paths' := ExtendPaths(paths, p, dist, dist');
    forall v | v in dist' && dist'[v].Some? ensures v in paths' && WalkTo(g, paths'[v], v) && |paths'[v]| == dist'[v].value + 1 {
      if dist'[v] != dist[v] {
        ExtendWalk(g, paths[p], p, v);
      }
    }
  }

  /** Expanding `p` relaxes its steps, and the steps of the cells expanded before stay relaxed. */
  lemma KeepRelaxed(g: seq<seq<Byte>>, dist: map<TextPoint, Option<nat>>, expanded: set<TextPoint>,
                    p: TextPoint, c: nat, dist': map<TextPoint, Option<nat>>)
    requires Map(g) && Keys(g, dist) && Relaxed(g, dist, expanded) && p in dist && dist[p] == Some(c)
    requires dist'.Keys == dist.Keys && Lowered(g, p, c, dist, dist') && Reached(g, p, c, dist, dist')
    requires forall u | u in expanded + {p} :: u in dist' && dist'[u] == dist[u]
    ensures Relaxed(g, dist', expanded + {p})
  {
    forall u, w | u in expanded + {p} && u in dist' && dist'[u].Some? && Edge(g, u, w)
      ensures w in dist' && Within(dist'[w], dist'[u].value + 1)
    {
      if u != p {
        assert w in dist && Within(dist[w], dist[u].value + 1);
      }
    }
  }

  /** Relaxing again from an expanded cell lowers nothing and pushes nothing. */
  lemma NothingPushed(g: seq<seq<Byte>>, dist: map<TextPoint, Option<nat>>, expanded: set<TextPoint>,
                      p: TextPoint, c: nat, dist': map<TextPoint, Option<nat>>, heap: multiset<State>, heap': multiset<State>)
    requires Map(g) && Relaxed(g, dist, expanded) && p in expanded && p in dist && dist[p] == Some(c)
    requires Lowered(g, p, c, dist, dist') && Pushed(c, dist, dist', heap, heap')
    ensures heap' == heap
  {
    forall v | v in dist ensures v in dist' && dist'[v] == dist[v] {
      if Edge(g, p, v) {
        assert Within(dist[v], c + 1);
      }
    }
    forall t ensures heap'[t] == heap[t] {
      assert t !in heap' - heap;
    }
  }

  /**
   * Each expansion makes progress: a cell expanded for the first time leaves fewer cells to expand,
   * and expanding a cell again only removes its entry from the heap.
   */
  lemma Progress(keys: set<TextPoint>, expanded: set<TextPoint>, heap: multiset<State>, heap': multiset<State>, s: State)
    requires s.position in keys && s in heap
    requires s.position in expanded ==> heap' == heap - multiset{s}
    ensures || |keys - (expanded + {s.position})| < |keys - expanded|
            || (expanded + {s.position} == expanded && |heap'| < |heap|)
  {
    if s.position !in expanded {
      assert keys - (expanded + {s.position}) == (keys - expanded) - {s.position};
    } else {
      assert expanded + {s.position} == expanded;
    }
  }

  /**
   * The pop of `s`, not the goal, and the rest of the loop body: a stale entry (`cost > dist`) is
   * skipped; otherwise the steps out of its cell are relaxed and the cell counts as expanded.
   */
  method Visit(g: seq<seq<Byte>>, dist: map<TextPoint, Option<nat>>, heap: multiset<State>,
               ghost expanded: set<TextPoint>, ghost paths: map<TextPoint, seq<TextPoint>>, s: State)
      returns (dist': map<TextPoint, Option<nat>>, heap': multiset<State>,
               ghost expanded': set<TextPoint>, ghost paths': map<TextPoint, seq<TextPoint>>)
    requires Inv(g, dist, heap, expanded, paths) && IsTop(heap, s) && s.position != Goal(g)
    ensures Inv(g, dist', heap', expanded', paths')
    ensures dist'.Keys == dist.Keys
    ensures |dist.Keys - expanded'| < |dist.Keys - expanded| || (expanded' == expanded && |heap'| < |heap|)
  {
    var rest := heap - multiset{s};
    if Above(s.cost, dist[s.position]) {
      Stale(g, dist, heap, expanded, paths, s);
      assert |rest| < |heap|;
      return dist, rest, expanded, paths;
    }
    dist', heap', expanded', paths' := ExpandTop(g, dist, heap, expanded, paths, s);
  }

  /** The popped entry `s` is at its cell's distance: relax the steps out of its cell and count it as expanded. */
  method ExpandTop(g: seq<seq<Byte>>, dist: map<TextPoint, Option<nat>>, heap: multiset<State>,
                   ghost expanded: set<TextPoint>, ghost paths: map<TextPoint, seq<TextPoint>>, s: State)
      returns (dist': map<TextPoint, Option<nat>>, heap': multiset<State>,
               ghost expanded': set<TextPoint>, ghost paths': map<TextPoint, seq<TextPoint>>)
    requires Inv(g, dist, heap, expanded, paths) && IsTop(heap, s) && s.position != Goal(g)
    requires s.position in dist && !Above(s.cost, dist[s.position])
    ensures Inv(g, dist', heap', expanded', paths')
    ensures dist'.Keys == dist.Keys
    ensures |dist.Keys - expanded'| < |dist.Keys - expanded| || (expanded' == expanded && |heap'| < |heap|)
  {
    assert dist[s.position] == Some(s.cost);
    dist', heap' := Relax(g, s.position, s.cost, dist, heap - multiset{s});
    Expand(g, dist, heap, expanded, paths, s, dist', heap');
    Progress(dist.Keys, expanded, heap, heap', s);
    expanded' := expanded + {s.position};
    paths' := ExtendPaths(paths, s.position, dist, dist');
  }

  /**
   * `shortest_path`: Dijkstra from the top-left cell. The cost at the first pop of the goal is the
   * length of a shortest walk to it, and `None`, when the heap drains, means no walk reaches it.
   */
  method ShortestPath(g: seq<seq<Byte>>) returns (r: Option<nat>)
    requires Map(g)
    ensures r.Some? ==> Reaches(g, Goal(g), r.value) && NoShorter(g, Goal(g), r.value)
    ensures r.None? <==> Unreachable(g, Goal(g))
  {
    var dist := map q | q in Points(g) :: None;
    var heap := multiset{};
    dist := dist[Start := Some(0)];
    heap := heap + multiset{State(0, Start)};
    ghost var expanded: set<TextPoint> := {};
    ghost var paths := map[Start := [Start]];
    InvStart(g);
    while heap != multiset{}
      invariant Inv(g, dist, heap, expanded, paths)
      decreases |dist.Keys - expanded|, |heap|
    {
      ghost var top := TopExists(heap);
      var s :| s in heap && IsTop(heap, s);
      if s.position == Goal(g) {
        GoalFound(g, dist, heap, expanded, paths, s);
        return Some(s.cost);
      }
      dist, heap, expanded, paths := Visit(g, dist, heap, expanded, paths, s);
    }
    Drained(g, dist, expanded, paths);
    return None;
  }

  // Building the memory grid

  /** `g` is a `rows` by `cols` grid with '#' exactly on the fallen bytes and '.' elsewhere. */
  predicate Fallen(g: seq<seq<Byte>>, rows: nat, cols: nat, blobs: seq<(nat, nat)>)
  {
    && |g| == rows
    && (forall r | 0 <= r < rows :: |g[r]| == cols)
    && forall r, c | 0 <= r < rows && 0 <= c < cols ::
         (g[r][c] == Wall <==> (r, c) in blobs) && (g[r][c] == Wall || g[r][c] == Space)
  }

  /** `build_graph`: row by row, cell by cell, '#' where a byte fell and '.' elsewhere. */
  method BuildGraph(rows: nat, cols: nat, blobs: seq<(nat, nat)>) returns (res: seq<seq<Byte>>)
    ensures Fallen(res, rows, cols, blobs)
  {
    res := [];
    for r := 0 to rows
      invariant |res| == r
      invariant forall i | 0 <= i < r :: |res[i]| == cols
      invariant forall i, k | 0 <= i < r && 0 <= k < cols ::
                  (res[i][k] == Wall <==> (i, k) in blobs) && (res[i][k] == Wall || res[i][k] == Space)
    {
      res := res + [[]];
      for c := 0 to cols
        invariant |res| == r + 1 && |res[r]| == c
        invariant forall i | 0 <= i < r :: |res[i]| == cols
        invariant forall i, k | 0 <= i < r && 0 <= k < cols ::
                    (res[i][k] == Wall <==> (i, k) in blobs) && (res[i][k] == Wall || res[i][k] == Space)
        invariant forall k | 0 <= k < c :: (res[r][k] == Wall <==> (r, k) in blobs) && (res[r][k] == Wall || res[r][k] == Space)
      {
        if (r, c) in blobs {
          res := res[r := res[r] + [Wall]];
        } else {
          res := res[r := res[r] + [Space]];
        }
      }
    }
  }

  /** On a built grid the walk steps avoid exactly the fallen bytes, and the goal is the corner `(rows - 1, cols - 1)`. */
  lemma FallenPassable(g: seq<seq<Byte>>, rows: nat, cols: nat, blobs: seq<(nat, nat)>)
    requires Fallen(g, rows, cols, blobs) && rows > 0 && cols > 0
    ensures Map(g) && Goal(g) == TextPoint(rows - 1, cols - 1)
    ensures forall q | InCorner(q, Corner(g)) :: Passable(g, q) <==> (q.row, q.col) !in blobs
  {
    forall r | r in g ensures |r| == |g[0]| {
    }
  }

  // Parsing

  /**
   * One line of `parse`: "x,y" read as `(row, col) == (y, x)`. `None` where an `unwrap` panics: a
   * missing comma or a piece that is not a number. Pieces after the second are not read.
   */
  function ParseBlob(line: string): (r: Option<(nat, nat)>)
    ensures |Split(line, ",")| < 2 ==> r.None?
    ensures r.Some? ==> ParseNat(Split(line, ",")[0]) == Some(r.value.1) && ParseNat(Split(line, ",")[1]) == Some(r.value.0)
  {
    var parts := Split(line, ",");
    if |parts| < 2 then None
    else
      match (ParseNat(parts[0]), ParseNat(parts[1]))
      case (Some(x), Some(y)) => Some((y, x))
      case _ => None
  }

  /** Every line read, or `None` when one of them does not parse. */
  function ParseBlobs(ls: seq<string>): (r: Option<seq<(nat, nat)>>)
    ensures r.Some? ==> |r.value| == |ls| && forall i | 0 <= i < |ls| :: ParseBlob(ls[i]) == Some(r.value[i])
    ensures r.None? ==> exists i | 0 <= i < |ls| :: ParseBlob(ls[i]).None?
  {
    if ls == [] then Some([])
    else
      match (ParseBlob(ls[0]), ParseBlobs(ls[1..]))
      case (Some(b), Some(bs)) =>
        assert forall i | 1 <= i < |ls| :: ls[i] == ls[1..][i - 1];
        Some([b] + bs)
      case (None, _) => None
      case (_, None) =>
        var i :| 0 <= i < |ls[1..]| && ParseBlob(ls[1..][i]).None?;
        assert ls[i + 1] == ls[1..][i];
        None
  }

  /** `parse`: the fallen bytes, one per line. */
  function Parse(data: string): (r: Option<seq<(nat, nat)>>)
    ensures r.Some? ==> |r.value| == |Lines(data)| && forall i | 0 <= i < |r.value| :: ParseBlob(Lines(data)[i]) == Some(r.value[i])
    ensures r.None? ==> exists i | 0 <= i < |Lines(data)| :: ParseBlob(Lines(data)[i]).None?
  {
    ParseBlobs(Lines(data))
  }

  /** The line for a byte at `(row, col)`: "col,row". */
  function ShowBlob(b: (nat, nat)): string
  {
    ShowNat(b.1) + "," + ShowNat(b.0)
  }

  /** The input text for a list of bytes. */
  function Layout(bs: seq<(nat, nat)>): string
  {
    Join(seq(|bs|, i requires 0 <= i < |bs| => ShowBlob(bs[i])), "\n")
  }

  /** Written digits hold no comma, line feed or carriage return. */
  lemma ShowNatFree(n: nat)
    ensures Free(ShowNat(n), ',') && Free(ShowNat(n), '\n') && Free(ShowNat(n), '\r')
  {
    var s := ShowNat(n);
    forall k | 0 <= k < |s| ensures IsDigit(s[k]) {
    }
  }

  /** A line reads back as the byte it was written for, with x and y swapped into (row, col). */
  lemma ParseShowBlob(b: (nat, nat))
    ensures ParseBlob(ShowBlob(b)) == Some(b)
    ensures IsLine(ShowBlob(b)) && |ShowBlob(b)| >= 1
  {
    var x, y := ShowNat(b.1), ShowNat(b.0);
    ShowNatFree(b.1);
    ShowNatFree(b.0);
    JoinCons(x, [y], ",");
    JoinSplit([x, y], ",");
    ParseShow(b.1, 0);
    ParseShow(b.0, 0);
    JoinFree([x, y], ",", '\n');
    var s := ShowBlob(b);
    assert s[|s| - 1] == y[|y| - 1];
  }

  /** `parse` reads back the bytes `Layout` writes. */
  lemma ParseLayout(bs: seq<(nat, nat)>)
    requires |bs| >= 1
    ensures Parse(Layout(bs)) == Some(bs)
  {
    var ls := seq(|bs|, i requires 0 <= i < |bs| => ShowBlob(bs[i]));
    forall i | 0 <= i < |ls| ensures IsLine(ls[i]) {
      ParseShowBlob(bs[i]);
    }
    ParseShowBlob(bs[|bs| - 1]);
    LinesJoin(ls);
    ParseShowBlobs(bs, ls);
  }

  /** Reading the written lines gives the bytes back. */
  lemma ParseShowBlobs(bs: seq<(nat, nat)>, ls: seq<string>)
    requires |ls| == |bs| && forall i | 0 <= i < |bs| :: ls[i] == ShowBlob(bs[i])
    ensures ParseBlobs(ls) == Some(bs)
  {
    forall i | 0 <= i < |ls| ensures ParseBlob(ls[i]) == Some(bs[i]) {
      ParseShowBlob(bs[i]);
    }
    var r := ParseBlobs(ls);
    assert r.Some?;
    assert r.value == bs;
  }
}
