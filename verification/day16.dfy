/**
 * Reindeer maze (src/day16.rs): a reindeer starts on a cell facing east and moves through a grid of
 * '#' walls. Stepping straight ahead costs 1; turning a quarter left or right and stepping costs 1001.
 * `shortest_path` runs a Dijkstra-like search keyed on positions, records for every cell the cells
 * it was entered from (`prev`), and at the end counts the cells reachable backwards from the goal.
 */
module Day16 {
  import opened Common
  import opened Day4
  import opened Day6
  import opened Day10
  import opened Day12
  import Day18

  // The heap order

  /** A heap entry: `position` reached at `cost`, facing `direction`. */
  datatype State = State(cost: nat, position: TextPoint, direction: Direction)

  /**
   * `State::cmp` as written: the cheaper state is the greater one; equal costs fall back to the
   * position. It ties exactly the states of equal cost and position, and a state no smaller than
   * another costs no more.
   */
  function Cmp(s: State, t: State): (r: Ordering)
    ensures r == Eq <==> s.cost == t.cost && s.position == t.position
    ensures r != Lt ==> s.cost <= t.cost
  {
    ThenWith(CmpNat(t.cost, s.cost), CmpPoint(s.position, t.position))
  }

  /** `Cmp` ignores the direction, so two states the derived `==` tells apart compare `Equal`. */
  lemma CmpIgnoresDirection()
    ensures var s, t := State(0, TextPoint(0, 0), E), State(0, TextPoint(0, 0), N);
      Cmp(s, t) == Eq && s != t
  {
  }

  /** The order `State::cmp` is meant to be: `Cmp`, with ties broken on the direction. */
  function HeapCmp(s: State, t: State): Ordering
  {
    ThenWith(Cmp(s, t), CmpNat(Index(s.direction), Index(t.direction)))
  }

  /** `HeapCmp` is a total order consistent with equality, and a state no smaller than another costs no more. */
  lemma HeapCmpOrder(s: State, t: State, u: State)
    ensures HeapCmp(s, t) == Eq <==> s == t
    ensures HeapCmp(s, t) == Gt <==> HeapCmp(t, s) == Lt
    ensures HeapCmp(s, t) == Gt && HeapCmp(t, u) == Gt ==> HeapCmp(s, u) == Gt
    ensures HeapCmp(s, t) != Lt ==> s.cost <= t.cost
  {
    if HeapCmp(s, t) == Eq {
      IndexInjective(s.direction, t.direction);
    }
  }

  /** `Cmp` as written is a total preorder: antisymmetric and transitive, with ties as `Cmp` states them. */
  lemma CmpPreorder(s: State, t: State, u: State)
    ensures Cmp(s, t) == Gt <==> Cmp(t, s) == Lt
    ensures Cmp(s, t) == Gt && Cmp(t, u) == Gt ==> Cmp(s, u) == Gt
  {
  }

  /**
   * `s` is what `BinaryHeap::pop` may remove under `Cmp` as written: an entry no other entry is
   * greater than. Among tied entries, which differ only in direction, the heap's choice is left open.
   */
  predicate IsTop(heap: multiset<State>, s: State)
  {
    s in heap && forall t | t in heap :: Cmp(t, s) != Gt
  }

  /** A non-empty heap has a top entry. */
  lemma {:induction false} TopExists(heap: multiset<State>) returns (s: State)
    requires heap != multiset{}
    ensures IsTop(heap, s)
    decreases |heap|
  {
    var x :| x in heap;
    var rest := heap - multiset{x};
    if rest == multiset{} {
      assert heap == multiset{x};
      CmpPreorder(x, x, x);
      s := x;
    } else {
      var y := TopExists(rest);
      if Cmp(x, y) == Gt {
        forall t | t in heap ensures Cmp(t, x) != Gt {
          CmpPreorder(t, x, y);
          CmpPreorder(x, x, x);
        }
        s := x;
      } else {
        forall t | t in heap ensures Cmp(t, y) != Gt {
          if t != x {
            assert t in rest;
          }
        }
        s := y;
      }
    }
  }

  /** The top of the heap is an entry of least cost: the max-heap pops like a min-heap on cost. */
  lemma TopCheapest(heap: multiset<State>, s: State)
    requires IsTop(heap, s)
    ensures forall t | t in heap :: s.cost <= t.cost
  {
    forall t | t in heap ensures s.cost <= t.cost {
      CmpPreorder(t, s, t);
      CmpPreorder(s, t, s);
    }
  }

  /** Two tops of one heap differ at most in direction. */
  lemma TopsTie(heap: multiset<State>, s: State, t: State)
    requires IsTop(heap, s) && IsTop(heap, t)
    ensures s.cost == t.cost && s.position == t.position
  {
    CmpPreorder(s, t, s);
    CmpPreorder(t, s, t);
  }

  /** `s` is what a pop removes under the corrected order `HeapCmp`. */
  predicate HeapTop(heap: multiset<State>, s: State)
  {
    s in heap && forall t | t in heap :: HeapCmp(t, s) != Gt
  }

  /**
   * Under the corrected order the top is unique, and it is one of the tops `IsTop` allows, so every
   * run of the search below is also a run under the corrected order's choices.
   */
  lemma HeapTopIsTop(heap: multiset<State>, s: State, t: State)
    requires HeapTop(heap, s)
    ensures IsTop(heap, s)
    ensures HeapTop(heap, t) ==> s == t
  {
    if HeapTop(heap, t) {
      HeapCmpOrder(s, t, s);
      HeapCmpOrder(t, s, t);
    }
  }

  // Moves

  /** An edge of `find_edges`: its cost, the cell it enters and the direction the reindeer then faces. */
  type Edge = (nat, TextPoint, Direction)

  /** The cell one step from `p` towards `d`, when it lies in the grid. */
  predicate HasAhead(g: seq<seq<Byte>>, p: TextPoint, d: Direction)
    requires Map(g)
  {
    InBox(AheadRow(p, d), AheadCol(p, d), Corner(g))
  }

  function Ahead(g: seq<seq<Byte>>, p: TextPoint, d: Direction): (q: TextPoint)
    requires Map(g) && HasAhead(g, p, d)
    ensures InCorner(q, Corner(g))
  {
    TextPoint(AheadRow(p, d), AheadCol(p, d))
  }

  /**
   * The rules of the maze as `find_edges` charges them: from `p` facing `d`, step onto the passable
   * cell ahead in `d` at cost 1, or turn a quarter right or left and step onto the passable cell
   * ahead in the new direction at cost 1001.
   */
  predicate Move(g: seq<seq<Byte>>, p: TextPoint, d: Direction, e: Edge)
    requires Map(g)
  {
    && (e.2 == d || e.2 == RotateRight(d) || e.2 == RotateLeft(d))
    && e.0 == (if e.2 == d then 1 else 1001)
    && HasAhead(g, p, e.2) && e.1 == Ahead(g, p, e.2)
    && Day18.Passable(g, e.1)
  }

  /** What the `filter_map` of `find_edges` keeps of one (direction, ray of length two) pair. */
  function EdgeFrom(g: seq<seq<Byte>>, direction: Direction, m: (Direction, seq<TextPoint>)): (r: seq<Edge>)
    requires Map(g) && (|m.1| == 2 ==> InCorner(m.1[1], Corner(g)))
    ensures |r| <= 1 && forall e | e in r :: e.2 == m.0
  {
    var (d, v) := m;
    if |v| != 2 || !Day18.Passable(g, v[1]) then []
    else if d == direction && Day18.Passable(g, v[1]) then [(1, v[1], d)]
    else if d == RotateRight(direction) then [(1001, v[1], d)]
    else if d == RotateLeft(direction) then [(1001, v[1], d)]
    else []
  }

  /** The rays of a move list stay in the grid. */
  predicate RaysIn(g: seq<seq<Byte>>, moves: seq<(Direction, seq<TextPoint>)>)
    requires Map(g)
  {
    forall i | 0 <= i < |moves| :: |moves[i].1| == 2 ==> InCorner(moves[i].1[1], Corner(g))
  }

  /** The `filter_map ... collect` of `find_edges`, pair by pair. */
  function FilterEdges(g: seq<seq<Byte>>, direction: Direction, moves: seq<(Direction, seq<TextPoint>)>): seq<Edge>
    requires Map(g) && RaysIn(g, moves)
  {
    if moves == [] then [] else EdgeFrom(g, direction, moves[0]) + FilterEdges(g, direction, moves[1..])
  }

  /** The pairs `explode_point_with_directions` gives for a ray length of two: each direction with `Ray2`. */
  lemma MovesAreRays(g: seq<seq<Byte>>, p: TextPoint)
    requires Map(g) && InCorner(p, Corner(g))
    ensures var moves := ExplodeWithDirections(p, Corner(g), 2);
      && RaysIn(g, moves)
      && (forall i | 0 <= i < 8 :: Index(moves[i].0) == i && moves[i].1 == Ray2(g, p, moves[i].0))
  {
    var moves := ExplodeWithDirections(p, Corner(g), 2);
    forall i | 0 <= i < 8 ensures moves[i].1 == Ray2(g, p, moves[i].0) {
      ShortRay(p, Corner(g), moves[i].0);
    }
  }

  /** `find_edges(graph, position, direction)`: every edge it yields is a move of the maze rules. */
  function FindEdges(g: seq<seq<Byte>>, p: TextPoint, direction: Direction): (r: seq<Edge>)
    requires Map(g) && InCorner(p, Corner(g))
    ensures forall i | 0 <= i < |r| :: Move(g, p, direction, r[i])
  {
    var moves := ExplodeWithDirections(p, Corner(g), 2);
    MovesAreRays(g, p);
    FilterEdgesMembers(g, direction, moves);
    forall e | e in FilterEdges(g, direction, moves) ensures Move(g, p, direction, e) {
      var i :| 0 <= i < |moves| && e in EdgeFrom(g, direction, moves[i]);
      EdgeFromRay(g, p, direction, moves[i].0, e);
    }
    FilterEdges(g, direction, moves)
  }

  /** The edges of `FilterEdges` are those of its pairs, and their directions are among the pairs' directions. */
  lemma {:induction false} FilterEdgesMembers(g: seq<seq<Byte>>, direction: Direction, moves: seq<(Direction, seq<TextPoint>)>)
    requires Map(g) && RaysIn(g, moves)
    ensures forall e | e in FilterEdges(g, direction, moves) :: exists i | 0 <= i < |moves| :: e in EdgeFrom(g, direction, moves[i])
    ensures forall i, e | 0 <= i < |moves| && e in EdgeFrom(g, direction, moves[i]) :: e in FilterEdges(g, direction, moves)
  {
    if moves != [] {
      FilterEdgesMembers(g, direction, moves[1..]);
      forall e | e in FilterEdges(g, direction, moves) ensures exists i | 0 <= i < |moves| :: e in EdgeFrom(g, direction, moves[i]) {
        if e !in EdgeFrom(g, direction, moves[0]) {
          assert e in FilterEdges(g, direction, moves[1..]);
          var j :| 0 <= j < |moves[1..]| && e in EdgeFrom(g, direction, moves[1..][j]);
          assert moves[1..][j] == moves[j + 1];
        }
      }
      forall i, e | 0 <= i < |moves| && e in EdgeFrom(g, direction, moves[i]) ensures e in FilterEdges(g, direction, moves) {
        if i > 0 {
          assert moves[1..][i - 1] == moves[i];
        }
      }
    }
  }

  /** The edge kept of the pair for `x`, when that pair holds `Ray2`, is the move facing `x`, if it is one. */
  lemma EdgeFromRay(g: seq<seq<Byte>>, p: TextPoint, direction: Direction, x: Direction, e: Edge)
    requires Map(g) && InCorner(p, Corner(g))
    ensures e in EdgeFrom(g, direction, (x, Ray2(g, p, x))) <==> e.2 == x && Move(g, p, direction, e)
  {
    var v := Ray2(g, p, x);
    if HasAhead(g, p, x) {
      assert v[1] == Ahead(g, p, x);
    }
  }

  /** `find_edges` yields exactly the moves of the maze rules. */
  lemma FindEdgesSpec(g: seq<seq<Byte>>, p: TextPoint, d: Direction)
    requires Map(g) && InCorner(p, Corner(g))
    ensures forall e :: e in FindEdges(g, p, d) <==> Move(g, p, d, e)
  {
    var moves := ExplodeWithDirections(p, Corner(g), 2);
    MovesAreRays(g, p);
    FilterEdgesMembers(g, d, moves);
    forall e ensures e in FindEdges(g, p, d) <==> Move(g, p, d, e) {
      if e in FindEdges(g, p, d) {
        var i :| 0 <= i < |moves| && e in EdgeFrom(g, d, moves[i]);
        EdgeFromRay(g, p, d, moves[i].0, e);
      }
      if Move(g, p, d, e) {
        var i := Index(e.2);
        IndexInjective(moves[i].0, e.2);
        EdgeFromRay(g, p, d, e.2, e);
      }
    }
  }

  /** No two edges face the same direction. */
  predicate DistinctDirections(es: seq<Edge>)
  {
    forall i, j | 0 <= i < j < |es| :: es[i].2 != es[j].2
  }

  /** No two edges enter the same cell. */
  predicate DistinctTargets(es: seq<Edge>)
  {
    forall i, j | 0 <= i < j < |es| :: es[i].1 != es[j].1
  }

  /** Pairs facing consecutive directions from `lo` on give edges facing strictly later directions, from `lo` on. */
  lemma {:induction false} FilterEdgesSorted(g: seq<seq<Byte>>, direction: Direction, moves: seq<(Direction, seq<TextPoint>)>, lo: nat)
    requires Map(g) && RaysIn(g, moves)
    requires forall i | 0 <= i < |moves| :: Index(moves[i].0) == lo + i
    ensures forall k | 0 <= k < |FilterEdges(g, direction, moves)| :: lo <= Index(FilterEdges(g, direction, moves)[k].2)
    ensures forall i, j | 0 <= i < j < |FilterEdges(g, direction, moves)| ::
      Index(FilterEdges(g, direction, moves)[i].2) < Index(FilterEdges(g, direction, moves)[j].2)
  {
    if moves != [] {
      var tail := moves[1..];
      assert forall i | 0 <= i < |tail| :: Index(tail[i].0) == lo + 1 + i by {
        forall i | 0 <= i < |tail| ensures Index(tail[i].0) == lo + 1 + i {
          assert tail[i] == moves[i + 1];
        }
      }
      FilterEdgesSorted(g, direction, tail, lo + 1);
    }
  }

  /** Edges with distinct directions drawn from `dirs` are no more than `dirs` has members. */
  lemma {:induction false} FewEdges(es: seq<Edge>, dirs: set<Direction>)
    requires DistinctDirections(es) && forall e | e in es :: e.2 in dirs
    ensures |es| <= |dirs|
  {
    if es != [] {
      var init, last := es[..|es| - 1], es[|es| - 1];
      forall e | e in init ensures e.2 in dirs - {last.2} {
        var i :| 0 <= i < |init| && init[i] == e;
        assert es[i] == e;
      }
      FewEdges(init, dirs - {last.2});
    }
  }

  /** Different directions lead to different cells. */
  lemma AheadInjective(p: TextPoint, a: Direction, b: Direction)
    requires AheadRow(p, a) == AheadRow(p, b) && AheadCol(p, a) == AheadCol(p, b)
    ensures a == b
  {
  }

  /** One step in a cardinal direction is one of the four neighbours. */
  lemma CardinalAhead(g: seq<seq<Byte>>, p: TextPoint, d: Direction)
    requires Map(g) && IsCardinal(d) && HasAhead(g, p, d)
    ensures Adjacent4(p, Ahead(g, p, d))
  {
  }

  /** The edges of `find_edges` face distinct directions, in compass order. */
  lemma FindEdgesDirections(g: seq<seq<Byte>>, p: TextPoint, d: Direction)
    requires Map(g) && InCorner(p, Corner(g))
    ensures DistinctDirections(FindEdges(g, p, d))
  {
    MovesAreRays(g, p);
    FilterEdgesSorted(g, d, ExplodeWithDirections(p, Corner(g), 2), 0);
  }

  /** `find_edges` yields at most three edges, into distinct cells. */
  lemma FindEdgesShape(g: seq<seq<Byte>>, p: TextPoint, d: Direction)
    requires Map(g) && InCorner(p, Corner(g))
    ensures |FindEdges(g, p, d)| <= 3 && DistinctTargets(FindEdges(g, p, d))
  {
    var es := FindEdges(g, p, d);
    FindEdgesDirections(g, p, d);
    FindEdgesSpec(g, p, d);
    FewEdges(es, {d, RotateRight(d), RotateLeft(d)});
    forall i, j | 0 <= i < j < |es| ensures es[i].1 != es[j].1 {
      assert es[i] in es && es[j] in es;
      if es[i].1 == es[j].1 {
        AheadInjective(p, es[i].2, es[j].2);
      }
    }
  }

  /** A move from a compass point faces a compass point, enters a neighbour, and never turns back. */
  lemma MoveCardinal(g: seq<seq<Byte>>, p: TextPoint, d: Direction, e: Edge)
    requires Map(g) && IsCardinal(d) && Move(g, p, d, e)
    ensures IsCardinal(e.2) && Adjacent4(p, e.1) && e.2 != RotateRight(RotateRight(d))
  {
    RotateFour(d);
    CardinalAhead(g, p, e.2);
    assert Index(RotateRight(RotateRight(d))) == (Index(d) + 4) % 8;
  }

  /** Facing a compass point, every edge faces a compass point and enters a neighbour: no backward or diagonal move. */
  lemma FindEdgesCardinal(g: seq<seq<Byte>>, p: TextPoint, d: Direction)
    requires Map(g) && InCorner(p, Corner(g)) && IsCardinal(d)
    ensures forall e | e in FindEdges(g, p, d) :: IsCardinal(e.2) && Adjacent4(p, e.1) && e.2 != RotateRight(RotateRight(d))
  {
    FindEdgesSpec(g, p, d);
    forall e | e in FindEdges(g, p, d) ensures IsCardinal(e.2) && Adjacent4(p, e.1) && e.2 != RotateRight(RotateRight(d)) {
      MoveCardinal(g, p, d, e);
    }
  }

  // Routes

  /** One move of the reindeer, from state `a` to state `b`, charged as `find_edges` charges it. */
  predicate Step(g: seq<seq<Byte>>, a: State, b: State)
    requires Map(g)
  {
    a.cost <= b.cost && Move(g, a.position, a.direction, (b.cost - a.cost, b.position, b.direction))
  }

  /** `w` is a route from `start`, facing east at cost 0, to the state `t`. */
  predicate Route(g: seq<seq<Byte>>, start: TextPoint, w: seq<State>, t: State)
    requires Map(g)
  {
    && |w| >= 1 && w[0] == State(0, start, E) && w[|w| - 1] == t
    && forall i | 0 <= i < |w| - 1 :: Step(g, w[i], w[i + 1])
  }

  /** Some route reaches `t`: its cost is the price of moving from `start` to its position and direction. */
  ghost predicate Achievable(g: seq<seq<Byte>>, start: TextPoint, t: State)
    requires Map(g)
  {
    exists w :: Route(g, start, w, t)
  }

  /** Some route from `start` ends on `goal` at cost `c`. */
  ghost predicate GoalCost(g: seq<seq<Byte>>, start: TextPoint, goal: TextPoint, c: nat)
    requires Map(g)
  {
    exists d :: Achievable(g, start, State(c, goal, d))
  }

  /** A route followed by one more move is a route. */
  lemma ExtendRoute(g: seq<seq<Byte>>, start: TextPoint, s: State, t: State)
    requires Map(g) && Achievable(g, start, s) && Step(g, s, t)
    ensures Achievable(g, start, t)
  {
    var w :| Route(g, start, w, s);
    var w' := w + [t];
    forall i | 0 <= i < |w'| - 1 ensures Step(g, w'[i], w'[i + 1]) {
      if i < |w| - 1 {
        assert w'[i] == w[i] && w'[i + 1] == w[i + 1];
      }
    }
    assert Route(g, start, w', t);
  }

  // Relaxation

  /** `next.cost <= dist[&next.position]`, where `None` stands for the `usize::MAX` of an unreached cell. */
  predicate AtMost(c: nat, d: Option<nat>)
  {
    d.None? || c <= d.value
  }

  /** The distance `d` is no greater than `e`, `None` being the greatest. */
  predicate NoWorse(d: Option<nat>, e: Option<nat>)
  {
    e.None? || (d.Some? && d.value <= e.value)
  }

  /** Every edge enters a cell that `dist` has an entry for. */
  predicate TargetsIn(edges: seq<Edge>, dist: map<TextPoint, Option<nat>>)
  {
    forall k | 0 <= k < |edges| :: edges[k].1 in dist
  }

  /** Relaxing one edge `e` from a state of cost `c`: push its entry and lower `dist` when that costs no more. */
  function RelaxEdge(c: nat, e: Edge, dh: (map<TextPoint, Option<nat>>, multiset<State>))
      : (map<TextPoint, Option<nat>>, multiset<State>)
    requires e.1 in dh.0
  {
    var (dist, heap) := dh;
    if AtMost(c + e.0, dist[e.1]) then (dist[e.1 := Some(c + e.0)], heap + multiset{State(c + e.0, e.1, e.2)})
    else (dist, heap)
  }

  /**
   * What relaxing `edges` in order, from a state of cost `c`, does to `dist` and the heap: the entry of
   * each edge, at `c` plus its cost, is pushed and recorded in `dist` when it costs no more than `dist`
   * holds at that point.
   */
  function Relaxation(c: nat, edges: seq<Edge>, dist: map<TextPoint, Option<nat>>, heap: multiset<State>)
      : (r: (map<TextPoint, Option<nat>>, multiset<State>))
    requires TargetsIn(edges, dist)
    ensures r.0.Keys == dist.Keys
    decreases |edges|
  {
    if edges == [] then (dist, heap)
    else RelaxEdge(c, edges[|edges| - 1], Relaxation(c, edges[..|edges| - 1], dist, heap))
  }

  /** Relaxation never increases a distance, only adds to the heap, and each new entry is the end of an edge. */
  lemma {:induction false} RelaxationMonotone(c: nat, edges: seq<Edge>, dist: map<TextPoint, Option<nat>>, heap: multiset<State>)
    requires TargetsIn(edges, dist)
    ensures forall q | q in dist :: NoWorse(Relaxation(c, edges, dist, heap).0[q], dist[q])
    ensures heap <= Relaxation(c, edges, dist, heap).1
    ensures forall t | t in Relaxation(c, edges, dist, heap).1 - heap ::
      c <= t.cost && (t.cost - c, t.position, t.direction) in edges
    decreases |edges|
  {
    if edges != [] {
      var init, e := edges[..|edges| - 1], edges[|edges| - 1];
      assert TargetsIn(init, dist);
      RelaxationMonotone(c, init, dist, heap);
      var (d0, h0) := Relaxation(c, init, dist, heap);
      var (d1, h1) := Relaxation(c, edges, dist, heap);
      forall t | t in h1 - heap ensures c <= t.cost && (t.cost - c, t.position, t.direction) in edges {
        if t in h0 - heap {
          assert (t.cost - c, t.position, t.direction) in init;
        } else {
          assert t == State(c + e.0, e.1, e.2);
        }
      }
    }
  }

  /** Relaxing one more edge of a list. */
  lemma RelaxationNext(c: nat, edges: seq<Edge>, i: nat, dist: map<TextPoint, Option<nat>>, heap: multiset<State>)
    requires TargetsIn(edges, dist) && i < |edges|
    ensures TargetsIn(edges[..i], dist) && TargetsIn(edges[..i + 1], dist)
    ensures Relaxation(c, edges[..i + 1], dist, heap) == RelaxEdge(c, edges[i], Relaxation(c, edges[..i], dist, heap))
  {
    assert edges[..i + 1][..i] == edges[..i];
  }

  /** No edge enters `q`. */
  predicate Untouched(edges: seq<Edge>, q: TextPoint)
  {
    forall k | 0 <= k < |edges| :: edges[k].1 != q
  }

  /** The distance of the cell `e` enters, `d` before, once `e` is judged from a state of cost `c`. */
  function Judged(c: nat, e: Edge, d: Option<nat>): Option<nat>
  {
    if AtMost(c + e.0, d) then Some(c + e.0) else d
  }

  /** The entries pushed when every edge is judged against the `dist` from before relaxation. */
  function Pushes(c: nat, edges: seq<Edge>, dist: map<TextPoint, Option<nat>>): multiset<State>
    requires TargetsIn(edges, dist)
    decreases |edges|
  {
    if edges == [] then multiset{}
    else
      var e := edges[|edges| - 1];
      Pushes(c, edges[..|edges| - 1], dist)
      + (if AtMost(c + e.0, dist[e.1]) then multiset{State(c + e.0, e.1, e.2)} else multiset{})
  }

  /** Without its last edge, a list of edges into distinct cells still enters distinct cells, none of them the last one's. */
  lemma SplitLast(edges: seq<Edge>)
    requires edges != [] && DistinctTargets(edges)
    ensures DistinctTargets(edges[..|edges| - 1]) && Untouched(edges[..|edges| - 1], edges[|edges| - 1].1)
    ensures forall q | Untouched(edges, q) :: Untouched(edges[..|edges| - 1], q) && edges[|edges| - 1].1 != q
  {
    var init := edges[..|edges| - 1];
    forall k | 0 <= k < |init| ensures init[k] == edges[k] {
    }
  }

  /**
   * With edges into distinct cells, as `find_edges` gives them, relaxation judges every edge against
   * the `dist` from before: a cell entered at `c` plus the edge's cost gets that distance exactly when
   * it is no more than the old one, and other cells keep theirs.
   */
  lemma {:induction false} RelaxationAt(c: nat, edges: seq<Edge>, dist: map<TextPoint, Option<nat>>, heap: multiset<State>)
    requires TargetsIn(edges, dist) && DistinctTargets(edges)
    ensures forall k | 0 <= k < |edges| :: Relaxation(c, edges, dist, heap).0[edges[k].1] == Judged(c, edges[k], dist[edges[k].1])
    ensures forall q | q in dist && Untouched(edges, q) :: Relaxation(c, edges, dist, heap).0[q] == dist[q]
    decreases |edges|
  {
    if edges != [] {
      var init, e := edges[..|edges| - 1], edges[|edges| - 1];
      assert TargetsIn(init, dist);
      SplitLast(edges);
      RelaxationAt(c, init, dist, heap);
      var d1 := Relaxation(c, edges, dist, heap).0;
      forall k | 0 <= k < |edges| ensures d1[edges[k].1] == Judged(c, edges[k], dist[edges[k].1]) {
        if k < |init| {
          assert init[k] == edges[k];
        }
      }
    }
  }

  /** With edges into distinct cells, the heap gains exactly the entries of the edges judged against the old `dist`. */
  lemma {:induction false} RelaxationPushes(c: nat, edges: seq<Edge>, dist: map<TextPoint, Option<nat>>, heap: multiset<State>)
    requires TargetsIn(edges, dist) && DistinctTargets(edges)
    ensures Relaxation(c, edges, dist, heap).1 == heap + Pushes(c, edges, dist)
    decreases |edges|
  {
    if edges != [] {
      var init, e := edges[..|edges| - 1], edges[|edges| - 1];
      assert TargetsIn(init, dist);
      SplitLast(edges);
      RelaxationAt(c, init, dist, heap);
      RelaxationPushes(c, init, dist, heap);
    }
  }

  /** `prev[q]`, or nothing when `q` has no entry yet. */
  function Parents(prev: map<TextPoint, seq<TextPoint>>, q: TextPoint): seq<TextPoint>
  {
    if q in prev then prev[q] else []
  }

  /** What relaxing `edges` in order from `p` does to `prev`: `p` is appended to the parents of each edge's cell. */
  function AddParents(prev: map<TextPoint, seq<TextPoint>>, edges: seq<Edge>, p: TextPoint): map<TextPoint, seq<TextPoint>>
    decreases |edges|
  {
    if edges == [] then prev
    else
      var prev' := AddParents(prev, edges[..|edges| - 1], p);
      var q := edges[|edges| - 1].1;
      prev'[q := Parents(prev', q) + [p]]
  }

  /** `b` is entered from `a`: both are cells, `b` is one of `a`'s four neighbours and is not '#'. */
  predicate Link(g: seq<seq<Byte>>, a: TextPoint, b: TextPoint)
    requires Map(g)
  {
    InCorner(a, Corner(g)) && InCorner(b, Corner(g)) && Adjacent4(a, b) && Day18.Passable(g, b)
  }

  /** Every parent recorded for a cell is a cell it can be entered from. */
  predicate PrevOk(g: seq<seq<Byte>>, prev: map<TextPoint, seq<TextPoint>>)
    requires Map(g)
  {
    forall q, a | q in prev && a in prev[q] :: Link(g, a, q)
  }

  /**
   * Recording the parents of edges into distinct cells appends `p` once to the parents of each cell
   * an edge enters, whether or not the edge lowered its distance, and leaves the other cells alone.
   */
  lemma {:induction false} AddParentsAt(prev: map<TextPoint, seq<TextPoint>>, edges: seq<Edge>, p: TextPoint)
    requires DistinctTargets(edges)
    ensures forall k | 0 <= k < |edges| :: Parents(AddParents(prev, edges, p), edges[k].1) == Parents(prev, edges[k].1) + [p]
    ensures forall q | Untouched(edges, q) :: Parents(AddParents(prev, edges, p), q) == Parents(prev, q)
    decreases |edges|
  {
    if edges != [] {
      var init, e := edges[..|edges| - 1], edges[|edges| - 1];
      SplitLast(edges);
      AddParentsAt(prev, init, p);
      var r := AddParents(prev, edges, p);
      forall k | 0 <= k < |edges| ensures Parents(r, edges[k].1) == Parents(prev, edges[k].1) + [p] {
        if k < |init| {
          assert init[k] == edges[k];
        }
      }
    }
  }

  /** Recording `p` as a parent of cells it can be entered from keeps every recorded parent a true one. */
  lemma {:induction false} AddParentsOk(g: seq<seq<Byte>>, prev: map<TextPoint, seq<TextPoint>>, edges: seq<Edge>, p: TextPoint)
    requires Map(g) && PrevOk(g, prev)
    requires forall k | 0 <= k < |edges| :: Link(g, p, edges[k].1)
    ensures PrevOk(g, AddParents(prev, edges, p))
    decreases |edges|
  {
    if edges != [] {
      var init, e := edges[..|edges| - 1], edges[|edges| - 1];
      forall k | 0 <= k < |init| ensures Link(g, p, init[k].1) {
        assert init[k] == edges[k];
      }
      AddParentsOk(g, prev, init, p);
      var r0 := AddParents(prev, init, p);
      var r := AddParents(prev, edges, p);
      forall q, a | q in r && a in r[q] ensures Link(g, a, q) {
        if q == e.1 && a !in Parents(r0, q) {
          assert a == p;
        }
      }
    }
  }

  /** Recording the parents of one more edge of a list. */
  lemma AddParentsNext(prev: map<TextPoint, seq<TextPoint>>, edges: seq<Edge>, i: nat, p: TextPoint)
    requires i < |edges|
    ensures AddParents(prev, edges[..i + 1], p) == AddParents(prev, edges[..i], p)[edges[i].1 := Parents(AddParents(prev, edges[..i], p), edges[i].1) + [p]]
  {
    assert edges[..i + 1][..i] == edges[..i];
  }

  /** `find_edges` enters only cells of the grid, so `dist` has an entry for each of them. */
  lemma EdgesInGrid(g: seq<seq<Byte>>, p: TextPoint, d: Direction, dist: map<TextPoint, Option<nat>>)
    requires Map(g) && InCorner(p, Corner(g)) && Day18.Keys(g, dist)
    ensures TargetsIn(FindEdges(g, p, d), dist)
  {
    var edges := FindEdges(g, p, d);
    FindEdgesSpec(g, p, d);
    forall k | 0 <= k < |edges| ensures edges[k].1 in dist {
      assert edges[k] in edges;
    }
  }

  /**
   * The inner loop of `shortest_path` over the edges out of a popped state at `p` and cost `c`: for
   * every edge, record `p` as a parent of the edge's cell, and push the entry it leads to when that
   * costs no more than the cell's `dist` (`<=`), lowering `dist` to it.
   */
  method RelaxEdges(c: nat, p: TextPoint, edges: seq<Edge>, dist: map<TextPoint, Option<nat>>,
                    prev: map<TextPoint, seq<TextPoint>>, heap: multiset<State>)
      returns (dist': map<TextPoint, Option<nat>>, prev': map<TextPoint, seq<TextPoint>>, heap': multiset<State>)
    requires TargetsIn(edges, dist)
    ensures (dist', heap') == Relaxation(c, edges, dist, heap)
    ensures prev' == AddParents(prev, edges, p)
  {
    dist', prev', heap' := dist, prev, heap;
    for i := 0 to |edges|
      invariant TargetsIn(edges[..i], dist)
      invariant (dist', heap') == Relaxation(c, edges[..i], dist, heap)
      invariant prev' == AddParents(prev, edges[..i], p)
    {
      RelaxationNext(c, edges, i, dist, heap);
      AddParentsNext(prev, edges, i, p);
      ghost var before := (dist', heap');
      var (nextCost, nextPosition, nextDirection) := edges[i];
      var next := State(c + nextCost, nextPosition, nextDirection);
      prev' := prev'[nextPosition := Parents(prev', nextPosition) + [p]];
      if AtMost(next.cost, dist'[next.position]) {
        heap' := heap' + multiset{next};
        dist' := dist'[nextPosition := Some(c + nextCost)];
      }
      assert (dist', heap') == RelaxEdge(c, edges[i], before);
    }
    assert edges[..|edges|] == edges;
  }

  // The search

  /** Every heap entry is a cell, faces a compass point and is the end of a route from the start. */
  ghost predicate HeapOk(g: seq<seq<Byte>>, start: TextPoint, heap: multiset<State>)
    requires Map(g)
  {
    forall t | t in heap :: InCorner(t.position, Corner(g)) && IsCardinal(t.direction) && Achievable(g, start, t)
  }

  /**
   * The loop invariant of `shortest_path`: `dist` has an entry for every cell, the heap holds ends of
   * routes, every recorded parent is a true one, and a recorded goal cost is the cost of a route.
   */
  ghost predicate Inv(g: seq<seq<Byte>>, start: TextPoint, goal: TextPoint, dist: map<TextPoint, Option<nat>>,
                      prev: map<TextPoint, seq<TextPoint>>, heap: multiset<State>, res: Option<nat>)
  {
    && Map(g) && InCorner(start, Corner(g)) && Day18.Keys(g, dist) && HeapOk(g, start, heap) && PrevOk(g, prev)
    && (res.Some? ==> GoalCost(g, start, goal, res.value))
  }

  /** The search starts with the start cell on the heap at cost 0, facing east. */
  lemma InvStart(g: seq<seq<Byte>>, start: TextPoint, goal: TextPoint)
    requires Map(g) && InCorner(start, Corner(g))
    ensures var f := Initial(g, start); Inv(g, start, goal, f.dist, f.prev, f.heap, f.res)
  {
    assert Route(g, start, [State(0, start, E)], State(0, start, E));
  }

  /** An entry pushed for an edge out of `s` is a cell facing a compass point at the end of a route. */
  lemma Pushed(g: seq<seq<Byte>>, start: TextPoint, s: State, t: State)
    requires Map(g) && InCorner(s.position, Corner(g)) && IsCardinal(s.direction) && Achievable(g, start, s)
    requires s.cost <= t.cost && (t.cost - s.cost, t.position, t.direction) in FindEdges(g, s.position, s.direction)
    ensures InCorner(t.position, Corner(g)) && IsCardinal(t.direction) && Achievable(g, start, t)
  {
    FindEdgesSpec(g, s.position, s.direction);
    FindEdgesCardinal(g, s.position, s.direction);
    assert Step(g, s, t);
    ExtendRoute(g, start, s, t);
  }

  /** The entries pushed while expanding `s` are ends of routes through `s`, and cost no less than it. */
  lemma ExpandHeap(g: seq<seq<Byte>>, start: TextPoint, s: State, dist: map<TextPoint, Option<nat>>, rest: multiset<State>)
    requires Map(g) && Day18.Keys(g, dist) && HeapOk(g, start, rest) && forall t | t in rest :: s.cost <= t.cost
    requires InCorner(s.position, Corner(g)) && IsCardinal(s.direction) && Achievable(g, start, s)
    ensures TargetsIn(FindEdges(g, s.position, s.direction), dist)
    ensures var r := Relaxation(s.cost, FindEdges(g, s.position, s.direction), dist, rest);
      Day18.Keys(g, r.0) && HeapOk(g, start, r.1) && forall t | t in r.1 :: s.cost <= t.cost
  {
    var edges := FindEdges(g, s.position, s.direction);
    EdgesInGrid(g, s.position, s.direction, dist);
    var r := Relaxation(s.cost, edges, dist, rest);
    forall t | t in r.1
      ensures InCorner(t.position, Corner(g)) && IsCardinal(t.direction) && Achievable(g, start, t) && s.cost <= t.cost
    {
      if t !in rest {
        RelaxedEntry(g, start, s, dist, rest, t);
      }
    }
  }

  /** An entry pushed while expanding `s` is the end of a route through `s`. */
  lemma RelaxedEntry(g: seq<seq<Byte>>, start: TextPoint, s: State, dist: map<TextPoint, Option<nat>>, rest: multiset<State>, t: State)
    requires Map(g) && InCorner(s.position, Corner(g)) && IsCardinal(s.direction) && Achievable(g, start, s)
    requires TargetsIn(FindEdges(g, s.position, s.direction), dist)
    requires t in Relaxation(s.cost, FindEdges(g, s.position, s.direction), dist, rest).1 && t !in rest
    ensures InCorner(t.position, Corner(g)) && IsCardinal(t.direction) && Achievable(g, start, t) && s.cost <= t.cost
  {
    NewEntry(s.cost, FindEdges(g, s.position, s.direction), dist, rest, t);
    Pushed(g, start, s, t);
  }

  /** An entry that relaxation added to the heap lies at the end of one of the edges. */
  lemma NewEntry(c: nat, edges: seq<Edge>, dist: map<TextPoint, Option<nat>>, heap: multiset<State>, t: State)
    requires TargetsIn(edges, dist) && t in Relaxation(c, edges, dist, heap).1 && t !in heap
    ensures c <= t.cost && (t.cost - c, t.position, t.direction) in edges
  {
    RelaxationMonotone(c, edges, dist, heap);
    assert t in Relaxation(c, edges, dist, heap).1 - heap;
  }

  /** The parents recorded while expanding `s` are true ones. */
  lemma ExpandPrev(g: seq<seq<Byte>>, s: State, prev: map<TextPoint, seq<TextPoint>>)
    requires Map(g) && PrevOk(g, prev) && InCorner(s.position, Corner(g)) && IsCardinal(s.direction)
    ensures PrevOk(g, AddParents(prev, FindEdges(g, s.position, s.direction), s.position))
  {
    var edges := FindEdges(g, s.position, s.direction);
    FindEdgesSpec(g, s.position, s.direction);
    FindEdgesCardinal(g, s.position, s.direction);
    forall k | 0 <= k < |edges| ensures Link(g, s.position, edges[k].1) {
      assert edges[k] in edges;
    }
    AddParentsOk(g, prev, edges, s.position);
  }

  /** A popped entry is skipped when it costs more than the goal cost found so far or than its cell's `dist`. */
  predicate Skipped(s: State, res: Option<nat>, dist: map<TextPoint, Option<nat>>)
    requires s.position in dist
  {
    (res.Some? && s.cost > res.value) || Day18.Above(s.cost, dist[s.position])
  }

  /** The variables of `shortest_path`'s loop: the distance table, the parents, the heap and the goal cost found so far. */
  datatype Frontier = Frontier(dist: map<TextPoint, Option<nat>>, prev: map<TextPoint, seq<TextPoint>>,
                               heap: multiset<State>, res: Option<nat>)

  /** The loop's variables before the first pop: the start at 0 facing east, every other cell unknown. */
  function Initial(g: seq<seq<Byte>>, start: TextPoint): Frontier
    requires Map(g)
  {
    Frontier((map q | q in Points(g) :: None)[start := Some(0)], map[], multiset{State(0, start, E)}, None)
  }

  /**
   * One iteration of `shortest_path`'s loop on the popped entry `s`: a goal entry records its cost; an
   * entry dearer than that cost or than its cell's distance is dropped; otherwise its edges are
   * relaxed and its cell recorded as a parent of each edge's cell. (An entry outside the grid, which
   * the loop never pops, is dropped.) The heap loses `s` and gains only entries no cheaper than it,
   * and the table keeps its cells.
   */
  function Expand(g: seq<seq<Byte>>, goal: TextPoint, f: Frontier, s: State): (r: Frontier)
    requires Map(g)
    ensures f.heap - multiset{s} <= r.heap && r.dist.Keys == f.dist.Keys
    ensures forall t | t in r.heap - (f.heap - multiset{s}) :: s.cost <= t.cost
    ensures r.res == if s.position == goal then Some(s.cost) else f.res
  {
    var res := if s.position == goal then Some(s.cost) else f.res;
    var rest := f.heap - multiset{s};
    if s.position in f.dist && !Skipped(s, res, f.dist) && InCorner(s.position, Corner(g))
       && TargetsIn(FindEdges(g, s.position, s.direction), f.dist)
    then
      var edges := FindEdges(g, s.position, s.direction);
      RelaxationMonotone(s.cost, edges, f.dist, rest);
      var (dist, heap) := Relaxation(s.cost, edges, f.dist, rest);
      Frontier(dist, AddParents(f.prev, edges, s.position), heap, res)
    else Frontier(f.dist, f.prev, rest, res)
  }

  /**
   * The body of `shortest_path`'s loop for the popped entry `s`: a goal entry records its cost; a
   * skipped entry changes nothing else; otherwise the edges out of it are relaxed. Every entry left
   * costs at least as much as `s`, so popped costs never decrease.
   */
  method Visit(g: seq<seq<Byte>>, start: TextPoint, goal: TextPoint, dist: map<TextPoint, Option<nat>>,
               prev: map<TextPoint, seq<TextPoint>>, heap: multiset<State>, res: Option<nat>, s: State)
      returns (dist': map<TextPoint, Option<nat>>, prev': map<TextPoint, seq<TextPoint>>, heap': multiset<State>, res': Option<nat>)
    requires Inv(g, start, goal, dist, prev, heap, res) && IsTop(heap, s)
    ensures Inv(g, start, goal, dist', prev', heap', res')
    ensures forall t | t in heap' :: s.cost <= t.cost
    ensures Frontier(dist', prev', heap', res') == Expand(g, goal, Frontier(dist, prev, heap, res), s)
  {
    var rest := heap - multiset{s};
    TopCheapest(heap, s);
    assert forall t | t in rest :: s.cost <= t.cost;
    assert HeapOk(g, start, rest);
    res' := res;
    if s.position == goal {
      res' := Some(s.cost);
    }
    if Skipped(s, res', dist) {
      return dist, prev, rest, res';
    }
    var edges := FindEdges(g, s.position, s.direction);
    ExpandHeap(g, start, s, dist, rest);
    ExpandPrev(g, s, prev);
    dist', prev', heap' := RelaxEdges(s.cost, s.position, edges, dist, prev, rest);
  }

  /** The costs of the popped entries never decrease. */
  predicate Ascending(trace: seq<State>)
  {
    forall i, j | 0 <= i < j < |trace| :: trace[i].cost <= trace[j].cost
  }

  /** No entry left on the heap is cheaper than the last one popped. */
  predicate Floor(trace: seq<State>, heap: multiset<State>)
  {
    |trace| > 0 ==> forall t | t in heap :: trace[|trace| - 1].cost <= t.cost
  }

  /** Popping `s` off `heap`, and leaving nothing cheaper than `s`, keeps the popped costs ascending. */
  lemma Pop(trace: seq<State>, heap: multiset<State>, s: State, heap': multiset<State>)
    requires Ascending(trace) && Floor(trace, heap) && s in heap
    requires forall t | t in heap' :: s.cost <= t.cost
    ensures Ascending(trace + [s]) && Floor(trace + [s], heap')
  {
  }

  /** The cost of the last popped entry at `goal`: `res` is overwritten on every goal pop. */
  function LastGoal(trace: seq<State>, goal: TextPoint): Option<nat>
  {
    if trace == [] then None
    else if trace[|trace| - 1].position == goal then Some(trace[|trace| - 1].cost)
    else LastGoal(trace[..|trace| - 1], goal)
  }

  /** A goal cost is recorded exactly when the goal was popped, and it is the cost of a goal pop. */
  lemma {:induction false} LastGoalSpec(trace: seq<State>, goal: TextPoint)
    ensures LastGoal(trace, goal).Some? <==> exists i | 0 <= i < |trace| :: trace[i].position == goal
    ensures LastGoal(trace, goal).Some? ==> exists i | 0 <= i < |trace| :: trace[i] == State(LastGoal(trace, goal).value, goal, trace[i].direction)
  {
    if trace != [] && trace[|trace| - 1].position != goal {
      var init := trace[..|trace| - 1];
      LastGoalSpec(init, goal);
      if exists i | 0 <= i < |trace| :: trace[i].position == goal {
        var i :| 0 <= i < |trace| && trace[i].position == goal;
        assert init[i] == trace[i];
      }
      if LastGoal(init, goal).Some? {
        var i :| 0 <= i < |init| && init[i] == State(LastGoal(init, goal).value, goal, init[i].direction);
        assert trace[i] == init[i];
      }
    } else if trace != [] {
      assert trace[|trace| - 1] == State(trace[|trace| - 1].cost, goal, trace[|trace| - 1].direction);
    }
  }

  /** One more pop records its cost when it is at the goal, and keeps the recorded cost otherwise. */
  lemma LastGoalPush(trace: seq<State>, s: State, goal: TextPoint)
    ensures LastGoal(trace + [s], goal) == if s.position == goal then Some(s.cost) else LastGoal(trace, goal)
  {
    assert (trace + [s])[..|trace|] == trace;
  }

  /** The loop's variables after popping the entries of `trace` in order, from the initial ones. */
  ghost function Replay(g: seq<seq<Byte>>, start: TextPoint, goal: TextPoint, trace: seq<State>): Frontier
    requires Map(g)
    decreases |trace|
  {
    if trace == [] then Initial(g, start)
    else Expand(g, goal, Replay(g, start, goal, trace[..|trace| - 1]), trace[|trace| - 1])
  }

  /** Each entry of `trace` is a top of the heap left by the pops before it. */
  ghost predicate PopsTops(g: seq<seq<Byte>>, start: TextPoint, goal: TextPoint, trace: seq<State>)
    requires Map(g)
  {
    forall i | 0 <= i < |trace| :: IsTop(Replay(g, start, goal, trace[..i]).heap, trace[i])
  }

  /**
   * `trace` is a run of `shortest_path`'s loop within `fuel` pops: every pop takes a top of the heap
   * replayed so far, and fewer than `fuel` pops happen only when that heap ran empty.
   */
  ghost predicate Run(g: seq<seq<Byte>>, start: TextPoint, goal: TextPoint, fuel: nat, trace: seq<State>)
    requires Map(g)
  {
    |trace| <= fuel && PopsTops(g, start, goal, trace)
    && (|trace| < fuel ==> Replay(g, start, goal, trace).heap == multiset{})
  }

  /** Popping a top of the replayed heap extends a run's pops, and replays one more iteration. */
  lemma PopsTopsPush(g: seq<seq<Byte>>, start: TextPoint, goal: TextPoint, trace: seq<State>, s: State)
    requires Map(g) && PopsTops(g, start, goal, trace) && IsTop(Replay(g, start, goal, trace).heap, s)
    ensures PopsTops(g, start, goal, trace + [s])
    ensures Replay(g, start, goal, trace + [s]) == Expand(g, goal, Replay(g, start, goal, trace), s)
  {
    var t := trace + [s];
    assert t[..|trace|] == trace;
    forall i | 0 <= i < |t| ensures IsTop(Replay(g, start, goal, t[..i]).heap, t[i]) {
      if i < |trace| {
        assert t[..i] == trace[..i];
      }
    }
  }

  /**
   * The pop loop of `shortest_path`, run for at most `fuel` pops, with `trace` the entries popped:
   * `trace` is a run of the loop and `res` and `prev` are its final values; `res` is the cost of the
   * last goal pop, and that is the cost of a route to `goal`; every recorded parent is a true one; the
   * popped costs never decrease.
   */
  method Search(g: seq<seq<Byte>>, start: TextPoint, goal: TextPoint, fuel: nat)
      returns (res: Option<nat>, prev: map<TextPoint, seq<TextPoint>>, ghost trace: seq<State>)
    requires Map(g) && InCorner(start, Corner(g))
    ensures Run(g, start, goal, fuel, trace)
    ensures res == Replay(g, start, goal, trace).res && prev == Replay(g, start, goal, trace).prev
    ensures res == LastGoal(trace, goal)
    ensures res.Some? ==> GoalCost(g, start, goal, res.value)
    ensures PrevOk(g, prev)
    ensures Ascending(trace)
  {
    var dist := map q | q in Points(g) :: None;
    dist := dist[start := Some(0)];
    var heap := multiset{State(0, start, E)};
    prev := map[];
    res := None;
    trace := [];
    InvStart(g, start, goal);
    var pops := 0;
    while heap != multiset{} && pops < fuel
      invariant Inv(g, start, goal, dist, prev, heap, res)
      invariant Frontier(dist, prev, heap, res) == Replay(g, start, goal, trace) && PopsTops(g, start, goal, trace)
      invariant |trace| == pops <= fuel && Ascending(trace) && Floor(trace, heap) && res == LastGoal(trace, goal)
      decreases fuel - pops
    {
      ghost var top := TopExists(heap);
      var s :| s in heap && IsTop(heap, s);
      LastGoalPush(trace, s, goal);
      PopsTopsPush(g, start, goal, trace, s);
      ghost var heap0 := heap;
      dist, prev, heap, res := Visit(g, start, goal, dist, prev, heap, res, s);
      Pop(trace, heap0, s, heap);
      trace := trace + [s];
      pops := pops + 1;
    }
  }

  // Counting the tiles on best paths

  /** `path` walks from its first cell to its last through recorded parents. */
  ghost predicate Chain(prev: map<TextPoint, seq<TextPoint>>, path: seq<TextPoint>)
  {
    forall i | 0 <= i < |path| - 1 :: path[i + 1] in Parents(prev, path[i])
  }

  /** `b` is reached from `a` by following recorded parents. */
  ghost predicate Behind(prev: map<TextPoint, seq<TextPoint>>, a: TextPoint, b: TextPoint)
  {
    exists path :: |path| >= 1 && path[0] == a && path[|path| - 1] == b && Chain(prev, path)
  }

  /** Every cell that has, or is, a recorded parent. */
  function Nodes(prev: map<TextPoint, seq<TextPoint>>): (r: set<TextPoint>)
    ensures forall q, a | q in prev && a in prev[q] :: q in r && a in r
  {
    prev.Keys + set q, a | q in prev && a in prev[q] :: a
  }

  /** The cells reached from `goal` through recorded parents: the tiles `dfs` counts. */
  ghost function Tiles(prev: map<TextPoint, seq<TextPoint>>, goal: TextPoint): set<TextPoint>
  {
    set b | b in Nodes(prev) + {goal} && Behind(prev, goal, b)
  }

  /** One parent step in front of a walk is a walk. */
  lemma BehindPrepend(prev: map<TextPoint, seq<TextPoint>>, a: TextPoint, b: TextPoint, x: TextPoint)
    requires b in Parents(prev, a) && Behind(prev, b, x)
    ensures Behind(prev, a, x)
  {
    var path :| |path| >= 1 && path[0] == b && path[|path| - 1] == x && Chain(prev, path);
    var path' := [a] + path;
    assert Chain(prev, path') by {
      forall i | 0 <= i < |path'| - 1 ensures path'[i + 1] in Parents(prev, path'[i]) {
        if i > 0 {
          assert path'[i] == path[i - 1] && path'[i + 1] == path[i];
        }
      }
    }
  }

  /** Removing one more element shrinks a finite set. */
  lemma Shrinks(nodes: set<TextPoint>, current: TextPoint, a: TextPoint, visited: set<TextPoint>, visited': set<TextPoint>)
    requires a in nodes && current !in visited && visited + {current} <= visited'
    ensures |nodes + {a} - visited'| < |nodes + {current} - visited|
  {
    var small, big := nodes + {a} - visited', nodes + {current} - visited;
    assert small <= big - {current};
    assert big == small + (big - small) && small * (big - small) == {};
    assert current in big - small;
  }

  /**
   * `dfs`: marks `current` and, unless it was marked already, every cell behind it. The cells it adds
   * are all behind `current`, and their parents are all marked when it returns.
   */
  method Dfs(prev: map<TextPoint, seq<TextPoint>>, visited: set<TextPoint>, current: TextPoint) returns (visited': set<TextPoint>)
    ensures visited + {current} <= visited'
    ensures forall x | x in visited' - visited :: Behind(prev, current, x)
    ensures forall x, y | x in visited' - visited && y in Parents(prev, x) :: y in visited'
    decreases |Nodes(prev) + {current} - visited|
  {
    if current in visited {
      return visited;
    }
    visited' := visited + {current};
    assert Behind(prev, current, current) by {
      assert Chain(prev, [current]);
    }
    if current in prev {
      var parents := prev[current];
      for i := 0 to |parents|
        invariant visited + {current} <= visited'
        invariant forall x | x in visited' - visited :: Behind(prev, current, x)
        invariant forall x, y | x in visited' - visited && x != current && y in Parents(prev, x) :: y in visited'
        invariant forall k | 0 <= k < i :: parents[k] in visited'
      {
        Shrinks(Nodes(prev), current, parents[i], visited, visited');
        var next := Dfs(prev, visited', parents[i]);
        forall x | x in next - visited' ensures Behind(prev, current, x) {
          BehindPrepend(prev, current, parents[i], x);
        }
        visited' := next;
      }
    }
  }

  /** Starting from nothing marked, `dfs` from `goal` marks exactly the tiles behind `goal`. */
  lemma DfsTiles(prev: map<TextPoint, seq<TextPoint>>, goal: TextPoint, marked: set<TextPoint>)
    requires goal in marked
    requires forall x | x in marked :: Behind(prev, goal, x)
    requires forall x, y | x in marked && y in Parents(prev, x) :: y in marked
    ensures marked == Tiles(prev, goal)
  {
    forall b | b in Tiles(prev, goal) ensures b in marked {
      var path :| |path| >= 1 && path[0] == goal && path[|path| - 1] == b && Chain(prev, path);
      var i := 0;
      while i < |path| - 1
        invariant 0 <= i < |path| && path[i] in marked
      {
        i := i + 1;
      }
    }
    forall x | x in marked ensures x in Nodes(prev) + {goal} {
      var path :| |path| >= 1 && path[0] == goal && path[|path| - 1] == x && Chain(prev, path);
      if |path| > 1 {
        var q := path[|path| - 2];
        assert x in Parents(prev, q);
      }
    }
  }

  /**
   * `shortest_path`: none when the goal was never popped within `fuel` pops; otherwise the cost of
   * the last goal pop, which is the cost of a route, paired with the number of tiles behind the goal
   * in the recorded parents.
   */
  method ShortestPath(g: seq<seq<Byte>>, start: TextPoint, goal: TextPoint, fuel: nat)
      returns (r: Option<(nat, nat)>, ghost trace: seq<State>)
    requires Map(g) && InCorner(start, Corner(g))
    ensures Run(g, start, goal, fuel, trace) && Ascending(trace)
    ensures r.None? <==> forall i | 0 <= i < |trace| :: trace[i].position != goal
    ensures r.Some? ==> LastGoal(trace, goal) == Some(r.value.0) && GoalCost(g, start, goal, r.value.0)
    ensures r.Some? ==> r.value.1 == |Tiles(Replay(g, start, goal, trace).prev, goal)|
    ensures PrevOk(g, Replay(g, start, goal, trace).prev)
  {
    var res, prev;
    res, prev, trace := Search(g, start, goal, fuel);
    LastGoalSpec(trace, goal);
    if res.None? {
      r := None;
      return;
    }
    var visited := Dfs(prev, {}, goal);
    DfsTiles(prev, goal, visited);
    r := Some((res.value, |visited|));
  }
}
