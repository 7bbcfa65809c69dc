/**
 * Garden regions (src/day12.rs): `garden` puts every cell on a stack in row-major order and `dfs`
 * pops them. An unvisited cell joins the open region when it has the open region's plant, and
 * otherwise closes that region and opens a new one; its unvisited N, E, S, W neighbours with the
 * same plant are pushed, so they are popped next. When the stack is empty the open region is closed.
 */
module Day12 {
  import opened Common
  import opened Day4
  import opened Day10

  /** The plant in a cell. */
  function Plant(g: seq<seq<Byte>>, p: TextPoint): Byte
    requires Map(g) && InCorner(p, Corner(g))
  {
    CornerInGrid(g, p);
    g[p.row][p.col]
  }

  /** The cells of row `row` left of column `width`, left to right. */
  function RowPoints(row: nat, width: nat): (r: seq<TextPoint>)
    ensures forall q :: q in r <==> q.row == row && q.col < width
  {
    if width == 0 then [] else RowPoints(row, width - 1) + [TextPoint(row, width - 1)]
  }

  /** The cells of rows `row` onwards, row by row and left to right within a row. */
  function PointsFrom(g: seq<seq<Byte>>, row: nat): (r: seq<TextPoint>)
    requires Map(g)
    ensures forall q :: q in r <==> row <= q.row && InCorner(q, Corner(g))
    decreases |g| - row
  {
    if row >= |g| then []
    else RowPoints(row, |g[0]|) + PointsFrom(g, row + 1)
  }

  /** The initial stack of `garden`: every cell, in row-major order. */
  function Points(g: seq<seq<Byte>>): (r: seq<TextPoint>)
    requires Map(g)
    ensures forall q :: q in r <==> InCorner(q, Corner(g))
  {
    PointsFrom(g, 0)
  }

  /** All cells of the grid. */
  function AllCells(g: seq<seq<Byte>>): set<TextPoint>
    requires Map(g)
  {
    set q | q in Points(g)
  }

  /** The cells covered by a set of regions. */
  function Flatten(rs: set<set<TextPoint>>): set<TextPoint>
  {
    set R, q | R in rs && q in R :: q
  }

  /** The open region of `current`, if any. */
  function Open(current: Option<(Byte, set<TextPoint>)>): set<TextPoint>
  {
    if current.Some? then current.value.1 else {}
  }

  /** Every cell of `region` is in the grid and holds plant `c`. */
  predicate Uniform(g: seq<seq<Byte>>, region: set<TextPoint>, c: Byte)
    requires Map(g)
  {
    forall q | q in region :: InCorner(q, Corner(g)) && Plant(g, q) == c
  }

  /** The cells of `region` are in the grid and all hold the same plant. */
  predicate SinglePlant(g: seq<seq<Byte>>, region: set<TextPoint>)
    requires Map(g)
  {
    forall p, q | p in region && q in region :: InCorner(p, Corner(g)) && InCorner(q, Corner(g)) && Plant(g, p) == Plant(g, q)
  }

  /** Regions are non-empty, each of a single plant, and pairwise disjoint. */
  predicate Regions(g: seq<seq<Byte>>, complete: set<set<TextPoint>>)
    requires Map(g)
  {
    && (forall R | R in complete :: R != {} && SinglePlant(g, R))
    && (forall R1, R2 | R1 in complete && R2 in complete :: R1 == R2 || R1 !! R2)
  }

  /** The stack holds cells, every visited point is a cell, and every unvisited cell is still on the stack. */
  ghost predicate OnGrid(g: seq<seq<Byte>>, stack: seq<TextPoint>, visited: set<TextPoint>)
    requires Map(g)
  {
    && Cells(g, stack)
    && (forall q | q in visited :: InCorner(q, Corner(g)))
    && (forall q | InCorner(q, Corner(g)) && q !in visited :: q in stack)
  }

  /**
   * The visited cells are those of the closed regions and the open one. The open region is a
   * non-empty region of its plant, disjoint from every closed region other than itself; it is
   * itself closed only once the stack is empty.
   */
  predicate Tracked(g: seq<seq<Byte>>, stack: seq<TextPoint>, visited: set<TextPoint>,
                    complete: set<set<TextPoint>>, current: Option<(Byte, set<TextPoint>)>)
    requires Map(g)
  {
    && visited == Flatten(complete) + Open(current)
    && (current.Some? ==>
          && current.value.1 != {}
          && Uniform(g, current.value.1, current.value.0)
          && (forall R | R in complete :: R == current.value.1 || R !! current.value.1)
          && (current.value.1 in complete ==> stack == []))
  }

  /** The state `dfs` keeps between pops. */
  ghost predicate Inv(g: seq<seq<Byte>>, stack: seq<TextPoint>, visited: set<TextPoint>,
                complete: set<set<TextPoint>>, current: Option<(Byte, set<TextPoint>)>)
  {
    Map(g) && OnGrid(g, stack, visited) && Regions(g, complete) && Tracked(g, stack, visited, complete, current)
  }

  /** The start of `garden`: every cell on the stack, nothing visited, no region. */
  lemma InvStart(g: seq<seq<Byte>>)
    requires Map(g)
    ensures Inv(g, Points(g), {}, {}, None)
  {
    var ps := Points(g);
    forall i | 0 <= i < |ps| ensures InCorner(ps[i], Corner(g)) {
      assert ps[i] in ps;
    }
    assert Flatten({}) == {};
  }

  /** Popping an already visited cell changes nothing else. */
  lemma SkipVisited(g: seq<seq<Byte>>, stack: seq<TextPoint>, next: TextPoint, visited: set<TextPoint>,
                    complete: set<set<TextPoint>>, current: Option<(Byte, set<TextPoint>)>)
    requires Inv(g, stack + [next], visited, complete, current) && next in visited
    ensures Inv(g, stack, visited, complete, current)
  {
    CellsAppend(g, stack, [next]);
    forall q | InCorner(q, Corner(g)) && q !in visited ensures q in stack {
      assert q in stack + [next];
    }
  }

  /** A popped unvisited cell of the open region's plant joins the open region. */
  lemma Extend(g: seq<seq<Byte>>, stack: seq<TextPoint>, next: TextPoint, visited: set<TextPoint>,
               complete: set<set<TextPoint>>, c: Byte, p: set<TextPoint>)
    requires Inv(g, stack + [next], visited, complete, Some((c, p))) && next !in visited
    requires InCorner(next, Corner(g)) && Plant(g, next) == c
    ensures Inv(g, stack, visited + {next}, complete, Some((c, p + {next})))
    ensures p + {next} !in complete
  {
    CellsAppend(g, stack, [next]);
    assert p !in complete;
    forall q | InCorner(q, Corner(g)) && q !in visited + {next} ensures q in stack {
      assert q in stack + [next];
    }
    forall R | R in complete ensures R !! p + {next} {
      assert R <= Flatten(complete);
    }
    assert visited + {next} == Flatten(complete) + (p + {next});
  }

  /**
   * A popped unvisited cell of another plant, or the first cell popped, closes the open region (if
   * any) and opens a new one of its own.
   */
  lemma Restart(g: seq<seq<Byte>>, stack: seq<TextPoint>, next: TextPoint, visited: set<TextPoint>,
                complete: set<set<TextPoint>>, current: Option<(Byte, set<TextPoint>)>)
    requires Inv(g, stack + [next], visited, complete, current) && next !in visited
    requires InCorner(next, Corner(g))
    ensures var complete' := if current.Some? then complete + {current.value.1} else complete;
      && Inv(g, stack, visited + {next}, complete', Some((Plant(g, next), {next})))
      && {next} !in complete'
  {
    CellsAppend(g, stack, [next]);
    var complete' := if current.Some? then complete + {current.value.1} else complete;
    forall q | InCorner(q, Corner(g)) && q !in visited + {next} ensures q in stack {
      assert q in stack + [next];
    }
    if current.Some? {
      CloseOpen(g, complete, current.value.0, current.value.1);
    }
    assert visited == Flatten(complete');
    forall R | R in complete' ensures R == {next} || R !! {next} {
      assert R <= Flatten(complete');
    }
    assert {next} !in complete';
  }

  /** Closing the open region adds it to the closed ones and its cells to their union. */
  lemma CloseOpen(g: seq<seq<Byte>>, complete: set<set<TextPoint>>, c: Byte, p: set<TextPoint>)
    requires Map(g) && Regions(g, complete) && p != {} && Uniform(g, p, c)
    requires forall R | R in complete :: R == p || R !! p
    ensures Regions(g, complete + {p}) && Flatten(complete + {p}) == Flatten(complete) + p
  {
    forall a, b | a in p && b in p
      ensures InCorner(a, Corner(g)) && InCorner(b, Corner(g)) && Plant(g, a) == Plant(g, b)
    {
    }
    assert Flatten(complete + {p}) == Flatten(complete) + p;
  }

  /** Pushing cells onto the stack keeps the state. */
  lemma PushCells(g: seq<seq<Byte>>, stack: seq<TextPoint>, ns: seq<TextPoint>, visited: set<TextPoint>,
                  complete: set<set<TextPoint>>, current: Option<(Byte, set<TextPoint>)>)
    requires Inv(g, stack, visited, complete, current) && Cells(g, ns)
    requires current.Some? && current.value.1 !in complete
    ensures Inv(g, stack + ns, visited, complete, current)
  {
    CellsAppend(g, stack, ns);
  }

  /** Closing the open region once the stack is empty. */
  lemma CloseLast(g: seq<seq<Byte>>, visited: set<TextPoint>, complete: set<set<TextPoint>>, c: Byte, p: set<TextPoint>)
    requires Inv(g, [], visited, complete, Some((c, p)))
    ensures Inv(g, [], visited, complete + {p}, Some((c, p)))
  {
    forall a, b | a in p && b in p
      ensures InCorner(a, Corner(g)) && InCorner(b, Corner(g)) && Plant(g, a) == Plant(g, b)
    {
    }
    assert Flatten(complete + {p}) == Flatten(complete) + p;
  }

  /** The cells `dfs` pushes after visiting `next`: candidate moves with plant `c` not yet visited. */
  function SameUnvisited(g: seq<seq<Byte>>, c: Byte, visited: set<TextPoint>, qs: seq<TextPoint>): (r: seq<TextPoint>)
    requires Map(g) && Cells(g, qs)
    ensures |r| <= |qs|
  {
    if qs == [] then []
    else
      var last := qs[|qs| - 1];
      var init := SameUnvisited(g, c, visited, qs[..|qs| - 1]);
      if Plant(g, last) == c && last !in visited then init + [last] else init
  }

  /** The pushed cells are the candidate moves of plant `c` not yet visited. */
  lemma {:induction false} SameUnvisitedCells(g: seq<seq<Byte>>, c: Byte, visited: set<TextPoint>, qs: seq<TextPoint>)
    requires Map(g) && Cells(g, qs)
    ensures Cells(g, SameUnvisited(g, c, visited, qs))
    ensures forall q :: q in SameUnvisited(g, c, visited, qs) <==> q in qs && Plant(g, q) == c && q !in visited
  {
    if qs != [] {
      var init, last := qs[..|qs| - 1], qs[|qs| - 1];
      assert Cells(g, init) by {
        forall i | 0 <= i < |init| ensures InCorner(init[i], Corner(g)) {
          assert init[i] == qs[i];
        }
      }
      SameUnvisitedCells(g, c, visited, init);
      assert qs == init + [last];
      var r := SameUnvisited(g, c, visited, qs);
      forall i | 0 <= i < |r| ensures InCorner(r[i], Corner(g)) {
        assert r[i] in r;
      }
    }
  }

  /** The cells pushed after visiting `p` are its unvisited in-grid N, E, S, W neighbours of plant `c`. */
  lemma PushedNeighbours(g: seq<seq<Byte>>, p: TextPoint, c: Byte, visited: set<TextPoint>)
    requires Map(g) && InCorner(p, Corner(g))
    ensures Cells(g, Moves(g, p))
    ensures forall q :: q in SameUnvisited(g, c, visited, Moves(g, p)) <==>
      Adjacent4(p, q) && InCorner(q, Corner(g)) && Plant(g, q) == c && q !in visited
  {
    MovesAreNeighbours(g, p);
    NeighboursCells(g, p, 0);
    SameUnvisitedCells(g, c, visited, Moves(g, p));
    forall q | Adjacent4(p, q) && InCorner(q, Corner(g)) ensures q in Moves(g, p) {
      NeighboursComplete(g, p, q);
    }
  }

  /** The push loop of `dfs`: each candidate move of plant `c` that is not visited, in N, E, S, W order. */
  method PushSame(g: seq<seq<Byte>>, c: Byte, visited: set<TextPoint>, moves: seq<TextPoint>, stack: seq<TextPoint>)
    returns (stack': seq<TextPoint>)
    requires Map(g) && Cells(g, moves)
    ensures stack' == stack + SameUnvisited(g, c, visited, moves)
  {
    stack' := stack;
    for i := 0 to |moves|
      invariant stack' == stack + SameUnvisited(g, c, visited, moves[..i])
    {
      var q := moves[i];
      assert moves[..i + 1][..i] == moves[..i];
      if Plant(g, q) == c && q !in visited {
        stack' := stack' + [q];
      }
    }
    assert moves[..|moves|] == moves;
  }

  /** A subset is no larger. */
  lemma SubsetCard(a: set<TextPoint>, b: set<TextPoint>)
    requires a <= b
    ensures |a| <= |b|
    decreases |b|
  {
    if a != {} {
      var x :| x in a;
      SubsetCard(a - {x}, b - {x});
    }
  }

  /** Visiting one more cell leaves fewer unvisited cells. */
  lemma FewerUnvisited(g: seq<seq<Byte>>, before: set<TextPoint>, visited: set<TextPoint>, next: TextPoint)
    requires Map(g) && before <= visited && next !in visited && InCorner(next, Corner(g))
    ensures |AllCells(g) - (visited + {next})| < |AllCells(g) - before|
  {
    var all := AllCells(g);
    assert next in all;
    assert all - (visited + {next}) == (all - visited) - {next};
    SubsetCard(all - visited, all - before);
  }

  /**
   * The body of `dfs` for an unvisited cell `next` popped off `stack`: grow the current region with
   * it, or close the current region and start a new one at it; then mark it visited and push its
   * unvisited neighbours of the same plant.
   */
  method Visit(g: seq<seq<Byte>>, stack: seq<TextPoint>, next: TextPoint, visited: set<TextPoint>,
               complete: set<set<TextPoint>>, current: Option<(Byte, set<TextPoint>)>)
    returns (stack': seq<TextPoint>, visited': set<TextPoint>, complete': set<set<TextPoint>>, current': Option<(Byte, set<TextPoint>)>)
    requires Inv(g, stack + [next], visited, complete, current) && next !in visited && InCorner(next, Corner(g))
    ensures Inv(g, stack', visited', complete', current') && visited' == visited + {next}
  {
    stack', visited', complete', current' := stack, visited, complete, current;
    var nextChar := Plant(g, next);
    if current'.Some? && current'.value.0 == nextChar {
      Extend(g, stack', next, visited', complete', current'.value.0, current'.value.1);
      current' := Some((nextChar, current'.value.1 + {next}));
    } else {
      Restart(g, stack', next, visited', complete', current');
      if current'.Some? {
        complete' := complete' + {current'.value.1};
      }
      current' := Some((nextChar, {next}));
    }
    visited' := visited' + {next};
    PushedNeighbours(g, next, nextChar, visited');
    SameUnvisitedCells(g, nextChar, visited', Moves(g, next));
    PushCells(g, stack', SameUnvisited(g, nextChar, visited', Moves(g, next)), visited', complete', current');
    stack' := PushSame(g, nextChar, visited', Moves(g, next), stack');
  }

  /**
   * `dfs`: pops the stack until it is empty, then closes the open region. After each visit it
   * re-enters itself on the shared state; the inner call empties the stack, so the loop ends
   * right after it. On return every cell is visited and the open region, if any, is closed.
   */
  method Dfs(g: seq<seq<Byte>>, stack: seq<TextPoint>, visited: set<TextPoint>,
             complete: set<set<TextPoint>>, current: Option<(Byte, set<TextPoint>)>)
    returns (stack': seq<TextPoint>, visited': set<TextPoint>, complete': set<set<TextPoint>>, current': Option<(Byte, set<TextPoint>)>)
    requires Inv(g, stack, visited, complete, current)
    ensures stack' == [] && Inv(g, stack', visited', complete', current')
    ensures visited <= visited' && (current'.Some? ==> current'.value.1 in complete')
    decreases |AllCells(g) - visited|, |stack|
  {
    stack', visited', complete', current' := stack, visited, complete, current;
    while stack' != []
      invariant Inv(g, stack', visited', complete', current') && visited <= visited'
      invariant |AllCells(g) - visited'| < |AllCells(g) - visited| || (visited' == visited && |stack'| <= |stack|)
      decreases |AllCells(g) - visited'|, |stack'|
    {
      var next := stack'[|stack'| - 1];
      LastSplit(stack');
      stack' := stack'[..|stack'| - 1];
      CellsAppend(g, stack', [next]);
      if next in visited' {
        SkipVisited(g, stack', next, visited', complete', current');
        continue;
      }
      FewerUnvisited(g, visited, visited', next);
      FewerUnvisited(g, visited', visited', next);
      stack', visited', complete', current' := Visit(g, stack', next, visited', complete', current');
      stack', visited', complete', current' := Dfs(g, stack', visited', complete', current');
    }
    if current'.Some? {
      CloseLast(g, visited', complete', current'.value.0, current'.value.1);
      complete' := complete' + {current'.value.1};
    }
  }

  /**
   * `garden`: the regions found by `dfs` from the row-major stack of all cells. They are non-empty,
   * each of a single plant, pairwise disjoint, and together cover every cell.
   */
  method Garden(g: seq<seq<Byte>>) returns (complete: set<set<TextPoint>>)
    requires Map(g)
    ensures forall R | R in complete :: R != {} && SinglePlant(g, R)
    ensures forall R1, R2 | R1 in complete && R2 in complete :: R1 == R2 || R1 !! R2
    ensures forall q :: q in Flatten(complete) <==> InCorner(q, Corner(g))
  {
    InvStart(g);
    var stack, visited, current;
    stack, visited, complete, current := Dfs(g, Points(g), {}, {}, None);
    forall q ensures q in Flatten(complete) <==> InCorner(q, Corner(g)) {
      if current.Some? {
        assert current.value.1 <= Flatten(complete);
      }
    }
  }
}
