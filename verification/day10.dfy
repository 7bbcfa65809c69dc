/**
 * Hiking trails (src/day10.rs): from a trailhead, climb the height map one step at a time to a
 * cardinal neighbour exactly one higher, until a '9'. `climb_trail` collects the distinct summits
 * reached, `climb_all_trail` one entry per trail; both run an explicit stack. `find_unique_trails`
 * and `find_all_trails` report the counts for every '0' cell in row-major order.
 */
module Day10 {
  import opened Common
  import opened Day4
  import opened Day6

  const Zero: Byte := 48
  const Nine: Byte := 57

  /** A height map as `climb_trail` reads it: `map.len() - 1` and `map[0]` need a non-empty grid. */
  predicate Map(g: seq<seq<Byte>>)
  {
    Rectangular(g)
  }

  /** The height of a cell. */
  function Height(g: seq<seq<Byte>>, p: TextPoint): Byte
    requires Map(g) && InCorner(p, Corner(g))
  {
    CornerInGrid(g, p);
    g[p.row][p.col]
  }

  /** Every point of `s` is a cell of the map. */
  predicate Cells(g: seq<seq<Byte>>, s: seq<TextPoint>)
    requires Map(g)
  {
    forall i | 0 <= i < |s| :: InCorner(s[i], Corner(g))
  }

  /** The filter and map over `explode_point_with_directions(p, corner, 2)` from pair `i` on: the second point of every cardinal ray of length 2. */
  function CardinalSteps(moves: seq<(Direction, seq<TextPoint>)>, i: nat): seq<TextPoint>
    decreases |moves| - i
  {
    if i >= |moves| then []
    else Keep(moves[i]) + CardinalSteps(moves, i + 1)
  }

  function Keep(m: (Direction, seq<TextPoint>)): seq<TextPoint>
  {
    if |m.1| == 2 && IsCardinal(m.0) then [m.1[1]] else []
  }

  /** The candidate moves from `p`, in the order N, E, S, W. */
  function Moves(g: seq<seq<Byte>>, p: TextPoint): seq<TextPoint>
    requires Map(g)
  {
    CardinalSteps(ExplodeWithDirections(p, Corner(g), 2), 0)
  }

  /** `q` is one step north, east, south or west of `p`. */
  predicate Adjacent4(p: TextPoint, q: TextPoint)
  {
    || (q.col == p.col && (q.row + 1 == p.row || q.row == p.row + 1))
    || (q.row == p.row && (q.col + 1 == p.col || q.col == p.col + 1))
  }

  /** What the `i`-th ray of length 2 from `p` contributes when it is cardinal: the cell ahead, if in the grid. */
  function KeepAt(g: seq<seq<Byte>>, p: TextPoint, i: nat): seq<TextPoint>
    requires Map(g)
  {
    if i == 0 then (if p.row > 0 then [TextPoint(p.row - 1, p.col)] else [])
    else if i == 2 then (if p.col < Corner(g).col then [TextPoint(p.row, p.col + 1)] else [])
    else if i == 4 then (if p.row < Corner(g).row then [TextPoint(p.row + 1, p.col)] else [])
    else if i == 6 then (if p.col > 0 then [TextPoint(p.row, p.col - 1)] else [])
    else []
  }

  /** The in-grid neighbours of `p` for compass indices `i` to 7: north, east, south, west in that order. */
  function Neighbours(g: seq<seq<Byte>>, p: TextPoint, i: nat): seq<TextPoint>
    requires Map(g)
    decreases 8 - i
  {
    if i >= 8 then [] else KeepAt(g, p, i) + Neighbours(g, p, i + 1)
  }

  /** The candidate moves are exactly the in-grid N, E, S, W neighbours, in that order. */
  lemma MovesAreNeighbours(g: seq<seq<Byte>>, p: TextPoint)
    requires Map(g) && InCorner(p, Corner(g))
    ensures Moves(g, p) == Neighbours(g, p, 0)
  {
    var ms := ExplodeWithDirections(p, Corner(g), 2);
    forall k | 0 <= k < 8 ensures Keep(ms[k]) == KeepAt(g, p, k) {
      ShortRay(p, Corner(g), ms[k].0);
      KeepMatches(g, p, ms[k].0, ms[k].1);
    }
    StepsFrom(g, p, ms, 0);
  }

  lemma KeepMatches(g: seq<seq<Byte>>, p: TextPoint, d: Direction, ray: seq<TextPoint>)
    requires Map(g) && InCorner(p, Corner(g))
    requires if InBox(AheadRow(p, d), AheadCol(p, d), Corner(g)) then ray == [p, TextPoint(AheadRow(p, d), AheadCol(p, d))] else ray == [p]
    ensures Keep((d, ray)) == KeepAt(g, p, Index(d))
  {
    match d
    case N =>
    case NE =>
    case E =>
    case SE =>
    case S =>
    case SW =>
    case W =>
    case NW =>
  }

  lemma {:induction false} StepsFrom(g: seq<seq<Byte>>, p: TextPoint, ms: seq<(Direction, seq<TextPoint>)>, i: nat)
    requires Map(g) && |ms| == 8 && i <= 8
    requires forall k | 0 <= k < 8 :: Keep(ms[k]) == KeepAt(g, p, k)
    ensures CardinalSteps(ms, i) == Neighbours(g, p, i)
    decreases 8 - i
  {
    if i < 8 {
      StepsFrom(g, p, ms, i + 1);
    }
  }

  /** The neighbours from compass index `i` on are in-grid cells one cardinal step away. */
  lemma {:induction false} NeighboursCells(g: seq<seq<Byte>>, p: TextPoint, i: nat)
    requires Map(g) && InCorner(p, Corner(g)) && i <= 8
    ensures Cells(g, Neighbours(g, p, i))
    ensures forall q | q in Neighbours(g, p, i) :: Adjacent4(p, q) && InCorner(q, Corner(g))
    decreases 8 - i
  {
    if i < 8 {
      NeighboursCells(g, p, i + 1);
      KeepAtAdjacent(g, p, i);
      var ns := Neighbours(g, p, i);
      assert ns == KeepAt(g, p, i) + Neighbours(g, p, i + 1);
      forall j | 0 <= j < |ns| ensures InCorner(ns[j], Corner(g)) {
        assert ns[j] in ns;
      }
    }
  }

  lemma KeepAtAdjacent(g: seq<seq<Byte>>, p: TextPoint, i: nat)
    requires Map(g) && InCorner(p, Corner(g))
    ensures forall q | q in KeepAt(g, p, i) :: Adjacent4(p, q) && InCorner(q, Corner(g))
  {
  }

  /** Every in-grid cell one cardinal step away from `p` is among its neighbours. */
  lemma NeighboursComplete(g: seq<seq<Byte>>, p: TextPoint, q: TextPoint)
    requires Map(g) && InCorner(p, Corner(g)) && InCorner(q, Corner(g)) && Adjacent4(p, q)
    ensures q in Neighbours(g, p, 0)
  {
    var k := if q.row + 1 == p.row then 0 else if q.col == p.col + 1 then 2 else if q.row == p.row + 1 then 4 else 6;
    assert q in KeepAt(g, p, k);
    NeighboursHas(g, p, 0, k);
  }

  lemma {:induction false} NeighboursHas(g: seq<seq<Byte>>, p: TextPoint, i: nat, k: nat)
    requires Map(g) && i <= k < 8
    ensures forall q | q in KeepAt(g, p, k) :: q in Neighbours(g, p, i)
    decreases k - i
  {
    if i < k {
      NeighboursHas(g, p, i + 1, k);
    }
  }

  /** Rust's `u8::saturating_sub`. */
  function SatSub(a: Byte, b: Byte): Byte
  {
    if a >= b then a - b else 0
  }

  /** The moves onto a cell exactly one higher than `h`, in order: what the inner loop pushes. */
  function Climbable(g: seq<seq<Byte>>, h: Byte, qs: seq<TextPoint>): (r: seq<TextPoint>)
    requires Map(g) && Cells(g, qs)
    ensures |r| <= |qs| && forall i | 0 <= i < |r| :: r[i] in qs
  {
    if qs == [] then []
    else
      var last := qs[|qs| - 1];
      var init := Climbable(g, h, qs[..|qs| - 1]);
      if SatSub(Height(g, last), h) == 1 then init + [last] else init
  }

  /** A climbable move is one of the moves, onto a cell of height `h + 1`. */
  lemma ClimbableMember(g: seq<seq<Byte>>, h: Byte, qs: seq<TextPoint>, q: TextPoint)
    requires Map(g) && Cells(g, qs) && q in Climbable(g, h, qs)
    ensures q in qs && Height(g, q) == h + 1
  {
    ClimbableCells(g, h, qs);
    var r := Climbable(g, h, qs);
    var i :| 0 <= i < |r| && r[i] == q;
  }

  /** A move onto a cell of height `h + 1` is climbable. */
  lemma ClimbableHas(g: seq<seq<Byte>>, h: Byte, qs: seq<TextPoint>, q: TextPoint)
    requires Map(g) && Cells(g, qs) && q in qs && Height(g, q) == h + 1
    ensures q in Climbable(g, h, qs)
  {
    ClimbableCells(g, h, qs);
  }

  /** The climbable moves are exactly those onto a cell of height `h + 1`. */
  lemma {:induction false} ClimbableCells(g: seq<seq<Byte>>, h: Byte, qs: seq<TextPoint>)
    requires Map(g) && Cells(g, qs)
    ensures Cells(g, Climbable(g, h, qs))
    ensures forall i | 0 <= i < |Climbable(g, h, qs)| :: Height(g, Climbable(g, h, qs)[i]) == h + 1
    ensures forall q | q in qs && Height(g, q) == h + 1 :: q in Climbable(g, h, qs)
  {
    if qs != [] {
      var init, last := qs[..|qs| - 1], qs[|qs| - 1];
      assert Cells(g, init) by {
        forall i | 0 <= i < |init| ensures InCorner(init[i], Corner(g)) {
          assert init[i] == qs[i];
        }
      }
      ClimbableCells(g, h, init);
      assert qs == init + [last];
    }
  }

  /** The cells `p` climbs to: the neighbours one higher. */
  function Next(g: seq<seq<Byte>>, p: TextPoint): (r: seq<TextPoint>)
    requires Map(g) && InCorner(p, Corner(g))
    ensures Cells(g, r)
    ensures forall i | 0 <= i < |r| :: Height(g, r[i]) == Height(g, p) + 1
  {
    MovesAreNeighbours(g, p);
    NeighboursCells(g, p, 0);
    ClimbableCells(g, Height(g, p), Moves(g, p));
    Climbable(g, Height(g, p), Moves(g, p))
  }

  /** The lowest height on `s`, or 256 for an empty stack. */
  function Lowest(g: seq<seq<Byte>>, s: seq<TextPoint>): (m: nat)
    requires Map(g) && Cells(g, s)
    ensures m <= 256 && (s == [] ==> m == 256)
    ensures forall i | 0 <= i < |s| :: m <= Height(g, s[i])
    ensures s != [] ==> exists i | 0 <= i < |s| :: m == Height(g, s[i])
  {
    if s == [] then 256
    else
      var h := Height(g, s[|s| - 1]);
      var m := Lowest(g, s[..|s| - 1]);
      assert forall i | 0 <= i < |s| - 1 :: s[i] == s[..|s| - 1][i];
      if h < m then h else m
  }

  /**
   * Reference for the search from `p`: a '9' is its own summit; otherwise the summits reached
   * through each cell it climbs to, the last one pushed first, as the stack pops them.
   */
  function Summits(g: seq<seq<Byte>>, p: TextPoint): seq<TextPoint>
    requires Map(g) && InCorner(p, Corner(g))
    decreases 256 - Height(g, p), 0
  {
    if Height(g, p) == Nine then [p] else Pending(g, Next(g, p))
  }

  /** The summits still to be reported from stack `s`, top first. */
  function Pending(g: seq<seq<Byte>>, s: seq<TextPoint>): seq<TextPoint>
    requires Map(g) && Cells(g, s)
    decreases 256 - Lowest(g, s), |s|
  {
    if s == [] then []
    else Summits(g, s[|s| - 1]) + Pending(g, s[..|s| - 1])
  }

  /** The number of pops the search from `p` makes. */
  function Visits(g: seq<seq<Byte>>, p: TextPoint): nat
    requires Map(g) && InCorner(p, Corner(g))
    decreases 256 - Height(g, p), 0
  {
    if Height(g, p) == Nine then 1 else 1 + StackVisits(g, Next(g, p))
  }

  function StackVisits(g: seq<seq<Byte>>, s: seq<TextPoint>): nat
    requires Map(g) && Cells(g, s)
    decreases 256 - Lowest(g, s), |s|
  {
    if s == [] then 0
    else Visits(g, s[|s| - 1]) + StackVisits(g, s[..|s| - 1])
  }

  /** A non-empty stack is what is below its top, with the top pushed. */
  lemma LastSplit(t: seq<TextPoint>)
    requires t != []
    ensures t == t[..|t| - 1] + [t[|t| - 1]]
  {
  }

  /** Stacks are concatenated cell by cell. */
  lemma CellsAppend(g: seq<seq<Byte>>, s: seq<TextPoint>, ns: seq<TextPoint>)
    requires Map(g)
    ensures Cells(g, s + ns) <==> Cells(g, s) && Cells(g, ns)
  {
    var t := s + ns;
    if Cells(g, s) && Cells(g, ns) {
      forall i | 0 <= i < |t| ensures InCorner(t[i], Corner(g)) {
        if i >= |s| {
          assert t[i] == ns[i - |s|];
        }
      }
    }
    if Cells(g, t) {
      forall i | 0 <= i < |s| ensures InCorner(s[i], Corner(g)) {
        assert s[i] == t[i];
      }
      forall i | 0 <= i < |ns| ensures InCorner(ns[i], Corner(g)) {
        assert ns[i] == t[|s| + i];
      }
    }
  }

  /** Pushing `ns` on top of `s`: their summits come first, the last pushed first. */
  lemma {:induction false} PendingPush(g: seq<seq<Byte>>, s: seq<TextPoint>, ns: seq<TextPoint>)
    requires Map(g) && Cells(g, s) && Cells(g, ns)
    ensures Cells(g, s + ns) && Pending(g, s + ns) == Pending(g, ns) + Pending(g, s)
    decreases |ns|
  {
    CellsAppend(g, s, ns);
    if ns == [] {
      assert s + ns == s;
    } else {
      var init, last := ns[..|ns| - 1], ns[|ns| - 1];
      assert ns == init + [last];
      CellsAppend(g, init, [last]);
      PendingPush(g, s, init);
      var t := s + ns;
      assert t[..|t| - 1] == s + init && t[|t| - 1] == last;
      PendingTop(g, t);
      PendingTop(g, ns);
      assert Pending(g, t) == Summits(g, last) + (Pending(g, init) + Pending(g, s));
    }
  }

  /** The summits pending on a non-empty stack: those of its top first. */
  lemma PendingTop(g: seq<seq<Byte>>, t: seq<TextPoint>)
    requires Map(g) && Cells(g, t) && t != []
    ensures Cells(g, t[..|t| - 1]) && InCorner(t[|t| - 1], Corner(g))
    ensures Pending(g, t) == Summits(g, t[|t| - 1]) + Pending(g, t[..|t| - 1])
  {
    Pop(g, t);
  }

  /** The pops still due are additive over the stack in the same way. */
  lemma {:induction false} VisitsPush(g: seq<seq<Byte>>, s: seq<TextPoint>, ns: seq<TextPoint>)
    requires Map(g) && Cells(g, s) && Cells(g, ns)
    ensures Cells(g, s + ns) && StackVisits(g, s + ns) == StackVisits(g, ns) + StackVisits(g, s)
    decreases |ns|
  {
    CellsAppend(g, s, ns);
    if ns == [] {
      assert s + ns == s;
    } else {
      var init, last := ns[..|ns| - 1], ns[|ns| - 1];
      assert ns == init + [last];
      CellsAppend(g, init, [last]);
      VisitsPush(g, s, init);
      var t := s + ns;
      assert t[..|t| - 1] == s + init && t[|t| - 1] == last;
    }
  }

  /** Scanning one more move of `moves` appends it when it is climbable. */
  lemma ClimbableStep(g: seq<seq<Byte>>, c: Byte, moves: seq<TextPoint>, i: nat)
    requires Map(g) && Cells(g, moves) && i < |moves|
    ensures Cells(g, moves[..i]) && Cells(g, moves[..i + 1])
    ensures Climbable(g, c, moves[..i + 1])
         == Climbable(g, c, moves[..i]) + (if SatSub(Height(g, moves[i]), c) == 1 then [moves[i]] else [])
  {
    assert moves[..i + 1][..i] == moves[..i];
  }

  /** One turn of the inner loop keeps the stack equal to `s` plus the climbable moves scanned so far. */
  lemma PushStep(g: seq<seq<Byte>>, c: Byte, moves: seq<TextPoint>, i: nat, s: seq<TextPoint>, before: seq<TextPoint>, after: seq<TextPoint>)
    requires Map(g) && Cells(g, moves) && i < |moves|
    requires Cells(g, moves[..i]) && before == s + Climbable(g, c, moves[..i])
    requires after == if SatSub(Height(g, moves[i]), c) == 1 then before + [moves[i]] else before
    ensures Cells(g, moves[..i + 1]) && after == s + Climbable(g, c, moves[..i + 1])
  {
    ClimbableStep(g, c, moves, i);
  }

  /**
   * The inner loop of both searches: pushes, in order, each candidate move onto a cell exactly one
   * higher than `c`.
   */
  method PushClimbable(g: seq<seq<Byte>>, c: Byte, moves: seq<TextPoint>, s: seq<TextPoint>) returns (s': seq<TextPoint>)
    requires Map(g) && Cells(g, moves)
    ensures s' == s + Climbable(g, c, moves)
  {
    s' := s;
    for i := 0 to |moves|
      invariant Cells(g, moves[..i]) && s' == s + Climbable(g, c, moves[..i])
    {
      var q := moves[i];
      ghost var before := s';
      if SatSub(Height(g, q), c) == 1 {
        s' := s' + [q];
      }
      PushStep(g, c, moves, i, s, before, s');
    }
    assert moves[..|moves|] == moves;
  }

  /** The body of either search for a popped cell `p` of height `c` below '9': push the cells it climbs to. */
  method Expand(g: seq<seq<Byte>>, p: TextPoint, c: Byte, s: seq<TextPoint>) returns (s': seq<TextPoint>)
    requires Map(g) && InCorner(p, Corner(g)) && c == Height(g, p)
    ensures s' == s + Next(g, p)
  {
    var moves := Moves(g, p);
    MovesAreNeighbours(g, p);
    NeighboursCells(g, p, 0);
    s' := PushClimbable(g, c, moves, s);
  }

  /** One pop of either search: the stack after expanding its top cell `p`, and what that pop owes. */
  lemma PopStep(g: seq<seq<Byte>>, s: seq<TextPoint>, p: TextPoint)
    requires Map(g) && Cells(g, s) && InCorner(p, Corner(g))
    ensures Cells(g, s + [p])
    ensures Pending(g, s + [p]) == Summits(g, p) + Pending(g, s)
    ensures StackVisits(g, s + [p]) == Visits(g, p) + StackVisits(g, s) && Visits(g, p) >= 1
    ensures Height(g, p) != Nine ==> Cells(g, s + Next(g, p))
    ensures Height(g, p) != Nine ==> Pending(g, s + Next(g, p)) == Summits(g, p) + Pending(g, s)
    ensures Height(g, p) != Nine ==> StackVisits(g, s + Next(g, p)) < StackVisits(g, s + [p])
  {
    CellsAppend(g, s, [p]);
    var t := s + [p];
    assert t[..|t| - 1] == s && t[|t| - 1] == p;
    if Height(g, p) != Nine {
      PendingPush(g, s, Next(g, p));
      VisitsPush(g, s, Next(g, p));
    }
  }

  /** Popping the top `p` of a stack of cells leaves a stack of cells below it. */
  lemma Pop(g: seq<seq<Byte>>, t: seq<TextPoint>)
    requires Map(g) && Cells(g, t) && t != []
    ensures Cells(g, t[..|t| - 1]) && InCorner(t[|t| - 1], Corner(g))
    ensures t == t[..|t| - 1] + [t[|t| - 1]]
  {
    LastSplit(t);
    CellsAppend(g, t[..|t| - 1], [t[|t| - 1]]);
  }

  /** A popped '9' is the next summit reported, and the search has fewer pops left. */
  lemma PopSummit(g: seq<seq<Byte>>, start: TextPoint, done: seq<TextPoint>, s: seq<TextPoint>, p: TextPoint)
    requires Map(g) && InCorner(start, Corner(g)) && Cells(g, s) && InCorner(p, Corner(g)) && Height(g, p) == Nine
    requires done + Pending(g, s + [p]) == Summits(g, start)
    ensures (done + [p]) + Pending(g, s) == Summits(g, start)
    ensures StackVisits(g, s) < StackVisits(g, s + [p])
  {
    PopStep(g, s, p);
    assert Summits(g, p) == [p];
    assert done + Pending(g, s + [p]) == (done + [p]) + Pending(g, s);
  }

  /** A popped cell below '9' is replaced by the cells it climbs to, whose summits come next; fewer pops are left. */
  lemma PopClimb(g: seq<seq<Byte>>, start: TextPoint, done: seq<TextPoint>, s: seq<TextPoint>, p: TextPoint)
    requires Map(g) && InCorner(start, Corner(g)) && Cells(g, s) && InCorner(p, Corner(g)) && Height(g, p) != Nine
    requires done + Pending(g, s + [p]) == Summits(g, start)
    ensures Cells(g, s + Next(g, p))
    ensures done + Pending(g, s + Next(g, p)) == Summits(g, start)
    ensures StackVisits(g, s + Next(g, p)) < StackVisits(g, s + [p])
  {
    PopStep(g, s, p);
  }

  /** The search starts with the trailhead alone on the stack. */
  lemma LoopStart(g: seq<seq<Byte>>, start: TextPoint)
    requires Map(g) && InCorner(start, Corner(g))
    ensures Cells(g, [start]) && [] + Pending(g, [start]) == Summits(g, start)
  {
    PopStep(g, [], start);
    assert [] + [start] == [start];
  }

  /** Reporting one more summit keeps each report paired with its summit. */
  lemma TagAppend(start: TextPoint, routes: seq<(TextPoint, TextPoint)>, done: seq<TextPoint>, p: TextPoint)
    requires |routes| == |done| && forall i | 0 <= i < |done| :: routes[i] == (start, done[i])
    ensures |routes + [(start, p)]| == |done + [p]|
    ensures forall i | 0 <= i < |done + [p]| :: (routes + [(start, p)])[i] == (start, (done + [p])[i])
  {
  }

  /**
   * `climb_all_trail`: pop a cell; a '9' is reported with the trailhead, any other cell pushes the
   * neighbours one higher, in N, E, S, W order. The report is the trailhead paired with each summit
   * of `Summits`, in that order.
   */
  method ClimbAllTrail(g: seq<seq<Byte>>, start: TextPoint) returns (routes: seq<(TextPoint, TextPoint)>)
    requires Map(g) && InCorner(start, Corner(g))
    ensures |routes| == |Summits(g, start)|
    ensures forall i | 0 <= i < |routes| :: routes[i] == (start, Summits(g, start)[i])
  {
    var s := [start];
    routes := [];
    ghost var done: seq<TextPoint> := [];
    LoopStart(g, start);
    while s != []
      invariant Cells(g, s)
      invariant |routes| == |done| && forall i | 0 <= i < |done| :: routes[i] == (start, done[i])
      invariant done + Pending(g, s) == Summits(g, start)
      decreases StackVisits(g, s)
    {
      var p := s[|s| - 1];
      Pop(g, s);
      s := s[..|s| - 1];
      var c := Height(g, p);
      if c == Nine {
        PopSummit(g, start, done, s, p);
        TagAppend(start, routes, done, p);
        routes := routes + [(start, p)];
        done := done + [p];
        continue;
      }
      PopClimb(g, start, done, s, p);
      s := Expand(g, p, c, s);
    }
  }

  /**
   * `climb_trail`: the same search, collecting the (trailhead, summit) pairs in a set: the
   * distinct summits of `Summits`.
   */
  method ClimbTrail(g: seq<seq<Byte>>, start: TextPoint) returns (routes: set<(TextPoint, TextPoint)>)
    requires Map(g) && InCorner(start, Corner(g))
    ensures routes == Routes(start, Summits(g, start))
  {
    var s := [start];
    routes := {};
    ghost var done: seq<TextPoint> := [];
    LoopStart(g, start);
    while s != []
      invariant Cells(g, s)
      invariant routes == Routes(start, done)
      invariant done + Pending(g, s) == Summits(g, start)
      decreases StackVisits(g, s)
    {
      var p := s[|s| - 1];
      Pop(g, s);
      s := s[..|s| - 1];
      var c := Height(g, p);
      if c == Nine {
        PopSummit(g, start, done, s, p);
        RoutesAppend(start, done, p);
        routes := routes + {(start, p)};
        done := done + [p];
        continue;
      }
      PopClimb(g, start, done, s, p);
      s := Expand(g, p, c, s);
    }
    assert done == Summits(g, start);
  }

  /** One step of a hiking trail: to an in-grid cardinal neighbour exactly one higher. */
  predicate Climb(g: seq<seq<Byte>>, p: TextPoint, q: TextPoint)
    requires Map(g)
  {
    InCorner(p, Corner(g)) && InCorner(q, Corner(g)) && Adjacent4(p, q) && Height(g, q) == Height(g, p) + 1
  }

  /** A hiking trail: cells climbing one step at a time, ending on a '9'. */
  predicate Trail(g: seq<seq<Byte>>, path: seq<TextPoint>)
    requires Map(g)
  {
    && |path| >= 1
    && InCorner(path[|path| - 1], Corner(g)) && Height(g, path[|path| - 1]) == Nine
    && forall i | 0 <= i < |path| - 1 :: Climb(g, path[i], path[i + 1])
  }

  /** Every climb from `p` is pushed after popping `p`. */
  lemma ClimbInNext(g: seq<seq<Byte>>, p: TextPoint, q: TextPoint)
    requires Map(g) && InCorner(p, Corner(g)) && Climb(g, p, q)
    ensures q in Next(g, p)
  {
    var moves := Moves(g, p);
    assert Cells(g, moves) by {
      MovesAreNeighbours(g, p);
      NeighboursCells(g, p, 0);
    }
    MoveOfClimb(g, p, q);
    ClimbableHas(g, Height(g, p), moves, q);
  }

  /** Every climb from `p` is among its moves. */
  lemma MoveOfClimb(g: seq<seq<Byte>>, p: TextPoint, q: TextPoint)
    requires Map(g) && InCorner(p, Corner(g)) && Climb(g, p, q)
    ensures q in Moves(g, p)
  {
    MovesAreNeighbours(g, p);
    NeighboursComplete(g, p, q);
  }

  /** Every cell pushed after popping `p` is a climb from `p`. */
  lemma NextIsClimb(g: seq<seq<Byte>>, p: TextPoint, q: TextPoint)
    requires Map(g) && InCorner(p, Corner(g)) && q in Next(g, p)
    ensures Climb(g, p, q)
  {
    MovesAreNeighbours(g, p);
    NeighboursCells(g, p, 0);
    ClimbableMember(g, Height(g, p), Moves(g, p), q);
  }

  /** The cells pushed after popping `p` are exactly its in-grid N, E, S, W neighbours one higher. */
  lemma NextClimbs(g: seq<seq<Byte>>, p: TextPoint)
    requires Map(g) && InCorner(p, Corner(g))
    ensures forall q :: q in Next(g, p) <==> Climb(g, p, q)
  {
    forall q ensures q in Next(g, p) <==> Climb(g, p, q) {
      if Climb(g, p, q) {
        ClimbInNext(g, p, q);
      }
      if q in Next(g, p) {
        NextIsClimb(g, p, q);
      }
    }
  }

  /** A summit pending on stack `s` is a summit of one of its cells. */
  lemma {:induction false} PendingMember(g: seq<seq<Byte>>, s: seq<TextPoint>, q: TextPoint) returns (i: nat)
    requires Map(g) && Cells(g, s) && q in Pending(g, s)
    ensures i < |s| && InCorner(s[i], Corner(g)) && q in Summits(g, s[i])
    decreases |s|
  {
    var init := s[..|s| - 1];
    assert Cells(g, init) by {
      forall k | 0 <= k < |init| ensures InCorner(init[k], Corner(g)) {
        assert init[k] == s[k];
      }
    }
    if q in Summits(g, s[|s| - 1]) {
      i := |s| - 1;
    } else {
      i := PendingMember(g, init, q);
      assert init[i] == s[i];
    }
  }

  /** Every summit of a cell on stack `s` is pending. */
  lemma {:induction false} PendingHas(g: seq<seq<Byte>>, s: seq<TextPoint>, i: nat)
    requires Map(g) && Cells(g, s) && i < |s|
    ensures forall q | q in Summits(g, s[i]) :: q in Pending(g, s)
    decreases |s|
  {
    if i < |s| - 1 {
      var init := s[..|s| - 1];
      assert Cells(g, init) by {
        forall k | 0 <= k < |init| ensures InCorner(init[k], Corner(g)) {
          assert init[k] == s[k];
        }
      }
      assert init[i] == s[i];
      PendingHas(g, init, i);
    }
  }

  /** Every summit of a cell on stack `s` is pending. */
  lemma PendingHasCell(g: seq<seq<Byte>>, s: seq<TextPoint>, c: TextPoint)
    requires Map(g) && Cells(g, s) && c in s
    ensures InCorner(c, Corner(g)) && forall q | q in Summits(g, c) :: q in Pending(g, s)
  {
    var j :| 0 <= j < |s| && s[j] == c;
    PendingHas(g, s, j);
  }

  /** Every summit the search from `p` reports ends a hiking trail from `p`. */
  lemma {:induction false} SummitSound(g: seq<seq<Byte>>, p: TextPoint, q: TextPoint) returns (path: seq<TextPoint>)
    requires Map(g) && InCorner(p, Corner(g)) && q in Summits(g, p)
    ensures Trail(g, path) && path[0] == p && path[|path| - 1] == q
    decreases 256 - Height(g, p)
  {
    if Height(g, p) == Nine {
      path := [p];
    } else {
      var next := Next(g, p);
      var i := PendingMember(g, next, q);
      NextIsClimb(g, p, next[i]);
      var rest := SummitSound(g, next[i], q);
      path := [p] + rest;
      forall k | 0 <= k < |path| - 1 ensures Climb(g, path[k], path[k + 1]) {
        if k > 0 {
          assert path[k] == rest[k - 1] && path[k + 1] == rest[k];
        }
      }
    }
  }

  /** The end of every hiking trail from `p` is reported by the search from `p`, `Nine - Height(p)` steps up. */
  lemma {:induction false} SummitComplete(g: seq<seq<Byte>>, path: seq<TextPoint>)
    requires Map(g) && Trail(g, path) && InCorner(path[0], Corner(g))
    ensures Height(g, path[0]) + |path| - 1 == Nine
    ensures path[|path| - 1] in Summits(g, path[0])
    decreases |path|
  {
    if |path| > 1 {
      var p, rest := path[0], path[1..];
      assert Climb(g, p, rest[0]);
      assert Trail(g, rest) by {
        forall k | 0 <= k < |rest| - 1 ensures Climb(g, rest[k], rest[k + 1]) {
          assert Climb(g, path[k + 1], path[k + 2]);
        }
      }
      SummitComplete(g, rest);
      assert rest[|rest| - 1] == path[|path| - 1];
      ClimbInNext(g, p, rest[0]);
      PendingHasCell(g, Next(g, p), rest[0]);
    }
  }

  /**
   * The summits of the search from `p` are exactly the ends of the hiking trails from `p`; every
   * reported cell therefore holds '9'.
   */
  lemma SummitsAreTrailEnds(g: seq<seq<Byte>>, p: TextPoint)
    requires Map(g) && InCorner(p, Corner(g))
    ensures forall q | q in Summits(g, p) :: InCorner(q, Corner(g)) && Height(g, q) == Nine
    ensures forall q :: q in Summits(g, p) <==> exists path :: Trail(g, path) && path[0] == p && path[|path| - 1] == q
  {
    forall q | q in Summits(g, p)
      ensures InCorner(q, Corner(g)) && Height(g, q) == Nine
      ensures exists path :: Trail(g, path) && path[0] == p && path[|path| - 1] == q
    {
      var path := SummitSound(g, p, q);
    }
    forall q | exists path :: Trail(g, path) && path[0] == p && path[|path| - 1] == q
      ensures q in Summits(g, p)
    {
      var path :| Trail(g, path) && path[0] == p && path[|path| - 1] == q;
      SummitComplete(g, path);
    }
  }

  /** The (trailhead, summit) pairs for a list of summits, as a set. */
  function Routes(start: TextPoint, summits: seq<TextPoint>): set<(TextPoint, TextPoint)>
  {
    set q | q in summits :: (start, q)
  }

  /** Reporting one more summit adds its pair to the set. */
  lemma RoutesAppend(start: TextPoint, summits: seq<TextPoint>, p: TextPoint)
    ensures Routes(start, summits + [p]) == Routes(start, summits) + {(start, p)}
  {
  }

  /** The distinct elements of a list of cells. */
  function Distinct(s: seq<TextPoint>): set<TextPoint>
  {
    set q | q in s
  }

  /** The route set holds one pair per distinct summit, so it is no larger than the summit list. */
  lemma {:induction false} RouteCount(start: TextPoint, summits: seq<TextPoint>)
    ensures |Routes(start, summits)| == |Distinct(summits)| <= |summits|
    decreases |summits|
  {
    if summits != [] {
      var init, last := summits[..|summits| - 1], summits[|summits| - 1];
      RouteCount(start, init);
      assert summits == init + [last];
      assert Distinct(summits) == Distinct(init) + {last};
      assert Routes(start, summits) == Routes(start, init) + {(start, last)};
      if last in init {
        assert Distinct(summits) == Distinct(init);
        assert Routes(start, summits) == Routes(start, init);
      } else {
        assert (start, last) !in Routes(start, init);
      }
    }
  }

  /**
   * A list as `climb_all_trail` returns it holds exactly the pairs of the set `climb_trail` returns
   * for the same trailhead, and is at least as long.
   */
  lemma AllTrailsCoverUnique(g: seq<seq<Byte>>, start: TextPoint, all: seq<(TextPoint, TextPoint)>)
    requires Map(g) && InCorner(start, Corner(g))
    requires |all| == |Summits(g, start)| && forall i | 0 <= i < |all| :: all[i] == (start, Summits(g, start)[i])
    ensures (set r | r in all) == Routes(start, Summits(g, start))
    ensures |Routes(start, Summits(g, start))| <= |all|
  {
    var summits := Summits(g, start);
    forall r | r in all ensures r in Routes(start, summits) {
      var i :| 0 <= i < |all| && all[i] == r;
      assert summits[i] in summits;
    }
    forall q | q in summits ensures (start, q) in all {
      var i :| 0 <= i < |summits| && summits[i] == q;
      assert all[i] == (start, q);
    }
    RouteCount(start, summits);
  }

  /** `find_char_in_puzzle(map, b'0')`: the trailheads, in row-major order. */
  function Trailheads(g: seq<seq<Byte>>): (r: seq<TextPoint>)
    requires Map(g)
    ensures Cells(g, r)
  {
    var zeros := FindChar(g, Zero);
    forall i | 0 <= i < |zeros| ensures InCorner(zeros[i], Corner(g)) {
      assert zeros[i] in zeros;
      CornerInGrid(g, zeros[i]);
    }
    zeros
  }

  /** The trailheads are exactly the '0' cells, strictly increasing in row-major order. */
  lemma TrailheadsAreZeros(g: seq<seq<Byte>>)
    requires Map(g)
    ensures forall i | 0 <= i < |Trailheads(g)| :: Height(g, Trailheads(g)[i]) == Zero
    ensures forall q | InCorner(q, Corner(g)) && Height(g, q) == Zero :: q in Trailheads(g)
    ensures forall i, j | 0 <= i < j < |Trailheads(g)| :: Less(Trailheads(g)[i], Trailheads(g)[j])
  {
    var heads := Trailheads(g);
    forall i | 0 <= i < |heads| ensures Height(g, heads[i]) == Zero {
      assert heads[i] in heads;
    }
    forall q | InCorner(q, Corner(g)) && Height(g, q) == Zero ensures q in heads {
      CornerInGrid(g, q);
    }
  }

  /** `n` is the score of trailhead `p`: the number of distinct summits its search reaches. */
  predicate Scored(g: seq<seq<Byte>>, p: TextPoint, n: nat)
    requires Map(g)
  {
    InCorner(p, Corner(g)) && n == |Distinct(Summits(g, p))|
  }

  /** `n` is the rating of trailhead `p`: the number of summit arrivals its search reports. */
  predicate Rated(g: seq<seq<Byte>>, p: TextPoint, n: nat)
    requires Map(g)
  {
    InCorner(p, Corner(g)) && n == |Summits(g, p)|
  }

  /** `climb_trail(map, p).len()`. */
  method Score(g: seq<seq<Byte>>, p: TextPoint) returns (n: nat)
    requires Map(g) && InCorner(p, Corner(g))
    ensures Scored(g, p, n)
  {
    var routes := ClimbTrail(g, p);
    RouteCount(p, Summits(g, p));
    n := |routes|;
  }

  /** `climb_all_trail(map, p).len()`. */
  method Rating(g: seq<seq<Byte>>, p: TextPoint) returns (n: nat)
    requires Map(g) && InCorner(p, Corner(g))
    ensures Rated(g, p, n)
  {
    var routes := ClimbAllTrail(g, p);
    n := |routes|;
  }

  /** `r` pairs the first `|r|` trailheads of `heads`, in order, with their scores. */
  predicate ScoredList(g: seq<seq<Byte>>, heads: seq<TextPoint>, r: seq<(TextPoint, nat)>)
    requires Map(g)
  {
    |r| <= |heads| && forall k | 0 <= k < |r| :: r[k].0 == heads[k] && Scored(g, r[k].0, r[k].1)
  }

  /** `r` pairs the first `|r|` trailheads of `heads`, in order, with their ratings. */
  predicate RatedList(g: seq<seq<Byte>>, heads: seq<TextPoint>, r: seq<(TextPoint, nat)>)
    requires Map(g)
  {
    |r| <= |heads| && forall k | 0 <= k < |r| :: r[k].0 == heads[k] && Rated(g, r[k].0, r[k].1)
  }

  /** Appending the next trailhead's score extends a scored prefix. */
  lemma ScoredListPush(g: seq<seq<Byte>>, heads: seq<TextPoint>, r: seq<(TextPoint, nat)>, n: nat)
    requires Map(g) && |r| < |heads| && ScoredList(g, heads, r) && Scored(g, heads[|r|], n)
    ensures ScoredList(g, heads, r + [(heads[|r|], n)])
  {
    var r' := r + [(heads[|r|], n)];
    forall k | 0 <= k < |r'| ensures r'[k].0 == heads[k] && Scored(g, r'[k].0, r'[k].1) {
      if k < |r| {
        assert r'[k] == r[k];
      }
    }
  }

  /** Appending the next trailhead's rating extends a rated prefix. */
  lemma RatedListPush(g: seq<seq<Byte>>, heads: seq<TextPoint>, r: seq<(TextPoint, nat)>, n: nat)
    requires Map(g) && |r| < |heads| && RatedList(g, heads, r) && Rated(g, heads[|r|], n)
    ensures RatedList(g, heads, r + [(heads[|r|], n)])
  {
    var r' := r + [(heads[|r|], n)];
    forall k | 0 <= k < |r'| ensures r'[k].0 == heads[k] && Rated(g, r'[k].0, r'[k].1) {
      if k < |r| {
        assert r'[k] == r[k];
      }
    }
  }

  /** `find_unique_trails`: for every trailhead, in order, the number of distinct summits it reaches. */
  method FindUniqueTrails(g: seq<seq<Byte>>) returns (r: seq<(TextPoint, nat)>)
    requires Map(g)
    ensures |r| == |Trailheads(g)| && ScoredList(g, Trailheads(g), r)
  {
    var zeros := Trailheads(g);
    r := [];
    for i := 0 to |zeros|
      invariant |r| == i && ScoredList(g, zeros, r)
    {
      var n := Score(g, zeros[i]);
      ScoredListPush(g, zeros, r, n);
      r := r + [(zeros[i], n)];
    }
  }

  /** `find_all_trails`: for every trailhead, in order, the number of summit arrivals the search reports. */
  method FindAllTrails(g: seq<seq<Byte>>) returns (r: seq<(TextPoint, nat)>)
    requires Map(g)
    ensures |r| == |Trailheads(g)| && RatedList(g, Trailheads(g), r)
  {
    var zeros := Trailheads(g);
    r := [];
    for i := 0 to |zeros|
      invariant |r| == i && RatedList(g, zeros, r)
    {
      var n := Rating(g, zeros[i]);
      RatedListPush(g, zeros, r, n);
      r := r + [(zeros[i], n)];
    }
  }
}
