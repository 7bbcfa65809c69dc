/** src/day6.rs: the eight-way compass and the patrolling guard. */
module Day6 {
  import opened Common
  import opened Day4

  /** The compass points in declaration order, which is also `explode_point`'s ray order. */
  datatype Direction = N | NE | E | SE | S | SW | W | NW

  function Index(d: Direction): (i: nat)
    ensures i < 8
  {
    match d
    case N => 0
    case NE => 1
    case E => 2
    case SE => 3
    case S => 4
    case SW => 5
    case W => 6
    case NW => 7
  }

  /** `enum_iterator::all::<Direction>()`. */
  function AllDirections(): (ds: seq<Direction>)
    ensures |ds| == 8 && forall i | 0 <= i < 8 :: Index(ds[i]) == i
  {
    [N, NE, E, SE, S, SW, W, NW]
  }

  /** `rotate_right`: a quarter turn clockwise, two places later in the cyclic order. */
  function RotateRight(d: Direction): (r: Direction)
    ensures Index(r) == (Index(d) + 2) % 8
  {
    match d
    case N => E
    case NE => SE
    case E => S
    case SE => SW
    case S => W
    case SW => NW
    case W => N
    case NW => NE
  }

  /** `rotate_left`: a quarter turn anticlockwise, two places earlier in the cyclic order. */
  function RotateLeft(d: Direction): (r: Direction)
    ensures Index(r) == (Index(d) + 6) % 8
  {
    match d
    case N => W
    case NW => SW
    case W => S
    case SW => SE
    case S => E
    case SE => NE
    case E => N
    case NE => NW
  }

  lemma IndexInjective(a: Direction, b: Direction)
    requires Index(a) == Index(b)
    ensures a == b
  {
  }

  /** The two rotations undo each other. */
  lemma RotateInverse(d: Direction)
    ensures RotateLeft(RotateRight(d)) == d
    ensures RotateRight(RotateLeft(d)) == d
  {
    IndexInjective(RotateLeft(RotateRight(d)), d);
    IndexInjective(RotateRight(RotateLeft(d)), d);
  }

  /** `d` rotated right `k` times. */
  function RotateN(d: Direction, k: nat): (r: Direction)
    ensures Index(r) == (Index(d) + 2 * k) % 8
  {
    if k == 0 then d
    else
      ModEightStep(Index(d) + 2 * (k - 1));
      RotateRight(RotateN(d, k - 1))
  }

  lemma ModEightStep(x: nat)
    ensures (x % 8 + 2) % 8 == (x + 2) % 8
  {
  }

  predicate IsCardinal(d: Direction)
  {
    Index(d) % 2 == 0
  }

  /** Four quarter turns come back to the start; rotation keeps cardinals and diagonals apart. */
  lemma RotateFour(d: Direction)
    ensures RotateN(d, 4) == d
    ensures IsCardinal(RotateRight(d)) == IsCardinal(d)
    ensures IsCardinal(RotateLeft(d)) == IsCardinal(d)
  {
    IndexInjective(RotateN(d, 4), d);
  }

  /** `explode_point_with_directions`: the i-th direction paired with the i-th ray. */
  function ExplodeWithDirections(p: TextPoint, corner: TextPoint, length: nat): (r: seq<(Direction, seq<TextPoint>)>)
    requires length >= 1
    ensures |r| == 8
    ensures forall i | 0 <= i < 8 :: Index(r[i].0) == i && r[i].1 == ExplodePoint(p, corner, length)[i]
  {
    var rays := ExplodePoint(p, corner, length);
    var ds := AllDirections();
    var r := seq(8, i requires 0 <= i < 8 => (ds[i], rays[i]));
    assert forall i | 0 <= i < 8 :: r[i].0 == ds[i];
    r
  }

  /** `.iter().filter(|(d, _)| d == dir).nth(0)`: the ray of the first pair facing `dir`. */
  function FirstRayFor(moves: seq<(Direction, seq<TextPoint>)>, dir: Direction): (r: Option<seq<TextPoint>>)
  {
    if moves == [] then None
    else if moves[0].0 == dir then Some(moves[0].1)
    else FirstRayFor(moves[1..], dir)
  }

  /** The first pair facing `dir` is the one `FirstRayFor` returns. */
  lemma {:induction false} FirstRayForFinds(moves: seq<(Direction, seq<TextPoint>)>, dir: Direction, i: nat)
    requires i < |moves| && moves[i].0 == dir
    requires forall j | 0 <= j < i :: moves[j].0 != dir
    ensures FirstRayFor(moves, dir) == Some(moves[i].1)
    decreases i
  {
    if i > 0 {
      FirstRayForFinds(moves[1..], dir, i - 1);
    }
  }

  /** Looking a direction up in `explode_point_with_directions` gives the ray of that direction. */
  lemma RayLookup(p: TextPoint, corner: TextPoint, length: nat, dir: Direction)
    requires length >= 1
    ensures FirstRayFor(ExplodeWithDirections(p, corner, length), dir) == Some(ExplodePoint(p, corner, length)[Index(dir)])
  {
    var moves := ExplodeWithDirections(p, corner, length);
    forall j | 0 <= j < Index(dir) ensures moves[j].0 != dir {
      assert Index(moves[j].0) == j;
    }
    FirstRayForFinds(moves, dir, Index(dir));
  }

  /** In `tick`, the ray looked up for the facing direction is `Ray2`. */
  lemma LookupRay2(g: seq<seq<Byte>>, p: TextPoint, d: Direction)
    requires Rectangular(g) && InCorner(p, Corner(g))
    ensures FirstRayFor(ExplodeWithDirections(p, Corner(g), Reach), d) == Some(Ray2(g, p, d))
  {
    RayLookup(p, Corner(g), 2, d);
    ShortRay(p, Corner(g), d);
  }

  /** The cell one step from `p` towards `d`, in signed coordinates. */
  function AheadRow(p: TextPoint, d: Direction): int
  {
    StepRow(p, Index(d), 1)
  }

  function AheadCol(p: TextPoint, d: Direction): int
  {
    StepCol(p, Index(d), 1)
  }

  /** A ray of length two is the point itself, followed by the next cell when that one is in the box. */
  lemma ShortRay(p: TextPoint, corner: TextPoint, d: Direction)
    requires InCorner(p, corner)
    ensures var ray := ExplodePoint(p, corner, Reach)[Index(d)];
      if InBox(AheadRow(p, d), AheadCol(p, d), corner) then
        ray == [p, TextPoint(AheadRow(p, d), AheadCol(p, d))]
      else ray == [p]
  {
    var ray := ExplodePoint(p, corner, Reach)[Index(d)];
    ExplodeRay(p, corner, Reach, Index(d));
    assert StepRow(p, Index(d), 0) == p.row && StepCol(p, Index(d), 0) == p.col;
    if |ray| == 2 {
      assert InCorner(ray[1], corner);
    }
  }

  const Dot: Byte := 46
  const Caret: Byte := 94

  /** How far `tick` looks: the guard's own cell and the one ahead. */
  const Reach: nat := 2

  /** How many directions `tick` tries before giving up: all four. */
  const Attempts: nat := 4

  /**
   * Reference for `tick`'s loop, with `turns` attempts left: the guard on the open cell `p` leaves the
   * map when the cell ahead is off the grid, steps onto the cell ahead when it is open, and otherwise
   * turns right and tries again. A guard not on an open cell only turns.
   */
  function Turns(g: seq<seq<Byte>>, p: TextPoint, d: Direction, turns: nat): (Direction, Option<TextPoint>)
    requires Rectangular(g) && InCorner(p, Corner(g))
    decreases turns
  {
    CornerInGrid(g, p);
    var r, c := AheadRow(p, d), AheadCol(p, d);
    if turns == 0 then (d, Some(p))
    else if g[p.row][p.col] == Dot && !InBox(r, c, Corner(g)) then (d, None)
    else if g[p.row][p.col] == Dot && InBox(r, c, Corner(g)) && (CornerInGrid(g, TextPoint(r, c)); g[r][c] == Dot) then
      (d, Some(TextPoint(r, c)))
    else Turns(g, p, RotateRight(d), turns - 1)
  }

  /** The ray of length two in direction `d`: the guard's cell, then the cell ahead when there is one. */
  function Ray2(g: seq<seq<Byte>>, p: TextPoint, d: Direction): (ray: seq<TextPoint>)
    requires Rectangular(g)
  {
    var r, c := AheadRow(p, d), AheadCol(p, d);
    if InBox(r, c, Corner(g)) then [p, TextPoint(r, c)] else [p]
  }

  /** One pass of `tick`'s loop, read off the ray of length two in the facing direction. */
  lemma Attempt(g: seq<seq<Byte>>, p: TextPoint, d: Direction, turns: nat)
    requires Rectangular(g) && InCorner(p, Corner(g)) && turns >= 1
    ensures var ray := Ray2(g, p, d);
      && RayInGrid(g, ray)
      && (ExtractString(g, ray) == [Dot] ==> Turns(g, p, d, turns) == (d, None))
      && (ExtractString(g, ray) == [Dot, Dot] ==> |ray| == 2 && Turns(g, p, d, turns) == (d, Some(ray[1])))
      && (ExtractString(g, ray) != [Dot] && ExtractString(g, ray) != [Dot, Dot] ==>
            Turns(g, p, d, turns) == Turns(g, p, RotateRight(d), turns - 1))
  {
    var ray := Ray2(g, p, d);
    CornerInGrid(g, p);
    if |ray| == 2 {
      CornerInGrid(g, ray[1]);
    }
    var s := ExtractString(g, ray);
    assert s[0] == g[p.row][p.col];
    TurnsStep(g, p, d, turns);
  }

  /** The first attempt of `Turns`, in terms of `Blocked`. */
  lemma TurnsStep(g: seq<seq<Byte>>, p: TextPoint, d: Direction, turns: nat)
    requires Rectangular(g) && InCorner(p, Corner(g)) && turns >= 1
    ensures Blocked(g, p, d) ==> Turns(g, p, d, turns) == Turns(g, p, RotateRight(d), turns - 1)
    ensures !Blocked(g, p, d) && !InBox(AheadRow(p, d), AheadCol(p, d), Corner(g)) ==> Turns(g, p, d, turns) == (d, None)
    ensures !Blocked(g, p, d) && InBox(AheadRow(p, d), AheadCol(p, d), Corner(g)) ==>
      Turns(g, p, d, turns) == (d, Some(TextPoint(AheadRow(p, d), AheadCol(p, d))))
  {
  }

  /** What `tick` does to the guard: nothing once it has left the map, otherwise up to four attempts. */
  function TickGuard(g: seq<seq<Byte>>, guard: (Direction, Option<TextPoint>)): (Direction, Option<TextPoint>)
    requires Rectangular(g) && (guard.1.Some? ==> InCorner(guard.1.value, Corner(g)))
  {
    if guard.1.None? then guard else Turns(g, guard.1.value, guard.0, Attempts)
  }

  /** `replace_char_in_puzzle`: a copy of the grid with the one cell `p` overwritten. */
  function ReplaceChar(puzzle: seq<seq<Byte>>, p: TextPoint, b: Byte): (r: seq<seq<Byte>>)
    requires InGrid(puzzle, p)
    ensures |r| == |puzzle| && forall i | 0 <= i < |r| :: |r[i]| == |puzzle[i]|
    ensures r[p.row][p.col] == b
    ensures forall q | InGrid(puzzle, q) && q != p :: r[q.row][q.col] == puzzle[q.row][q.col]
  {
    var row: seq<Byte> := puzzle[p.row][p.col := b];
    puzzle[p.row := row]
  }

  /**
   * The loop of `tick` for a guard at `p` facing `d`, given the rays of length two out of `p`: look along
   * the ray in the facing direction, leave the map or step ahead when the way is open, otherwise turn
   * right; four times at most.
   */
  method TryDirections(g: seq<seq<Byte>>, p: TextPoint, d: Direction, allMoves: seq<(Direction, seq<TextPoint>)>)
      returns (d': Direction, at: Option<TextPoint>)
    requires Rectangular(g) && InCorner(p, Corner(g))
    requires forall dir: Direction :: FirstRayFor(allMoves, dir) == Some(Ray2(g, p, dir))
    ensures (d', at) == Turns(g, p, d, Attempts)
  {
    d', at := d, Some(p);
    for i := 0 to Attempts
      invariant at == Some(p)
      invariant Turns(g, p, d, Attempts) == Turns(g, p, d', Attempts - i)
    {
      var v := FirstRayFor(allMoves, d').value;
      Attempt(g, p, d', Attempts - i);
      var s := ExtractString(g, v);
      if s == [Dot] {
        at := None;
        return;
      }
      if s == [Dot, Dot] {
        at := Some(v[1]);
        return;
      }
      assert Turns(g, p, d', Attempts - i) == Turns(g, p, RotateRight(d'), Attempts - (i + 1));
      d' := RotateRight(d');
    }
  }

  /** A guard and the map it patrols. */
  class GuardMap {
    var guardMap: seq<seq<Byte>>
    var guard: (Direction, Option<TextPoint>)

    predicate Valid()
      reads this
    {
      Rectangular(guardMap) && (guard.1.Some? ==> InCorner(guard.1.value, Corner(guardMap)))
    }

    /** `parse`: the guard starts on the first `^` cell, facing north, and that cell becomes open. */
    constructor (puzzle: seq<seq<Byte>>)
      requires Rectangular(puzzle) && FindChar(puzzle, Caret) != []
      ensures Valid()
      ensures var g := FindChar(puzzle, Caret)[0];
        guardMap == ReplaceChar(puzzle, g, Dot) && guard == (N, Some(g))
    {
      var g := FindChar(puzzle, Caret)[0];
      assert g in FindChar(puzzle, Caret);
      CornerInGrid(puzzle, g);
      guardMap := ReplaceChar(puzzle, g, Dot);
      guard := (N, Some(g));
      new;
      assert guardMap[0] in guardMap;
      forall r | r in guardMap ensures |r| == |guardMap[0]| {
        var i :| 0 <= i < |guardMap| && guardMap[i] == r;
        assert puzzle[i] in puzzle && puzzle[0] in puzzle;
      }
    }

    /** `tick`: move the guard once; returns its new position. The map itself never changes. */
    method Tick() returns (pos: Option<TextPoint>)
      requires Valid()
      modifies this
      ensures Valid() && guardMap == old(guardMap)
      ensures guard == TickGuard(old(guardMap), old(guard))
      ensures pos == guard.1
    {
      var g := guardMap;
      var (d, at) := guard;
      if at.Some? {
        var corner := TextPoint(|g| - 1, |g[0]| - 1);
        var allMoves := ExplodeWithDirections(at.value, corner, Reach);
        forall dir: Direction ensures FirstRayFor(allMoves, dir) == Some(Ray2(g, at.value, dir)) {
          LookupRay2(g, at.value, dir);
        }
        d, at := TryDirections(g, at.value, d, allMoves);
        TickLandsOnOpen(g, guard.1.value, guard.0);
      }
      guard := (d, at);
      pos := guard.1;
    }
  }

  /**
   * The tick's result after `j` blocked turns: the direction is `d` turned `j` times, and either all
   * `turns` attempts were blocked and the guard stays, or the `j`-th direction was free and the guard
   * left over the edge ahead or stepped onto the cell ahead.
   */
  predicate Outcome(g: seq<seq<Byte>>, p: TextPoint, d: Direction, turns: nat, res: (Direction, Option<TextPoint>), j: nat)
    requires Rectangular(g) && InCorner(p, Corner(g))
  {
    && j <= turns
    && res.0 == RotateN(d, j)
    && (forall k | 0 <= k < j :: Blocked(g, p, RotateN(d, k)))
    && (j == turns ==> res.1 == Some(p))
    && (j < turns ==> !Blocked(g, p, res.0))
    && (j < turns && res.1.None? ==> !InBox(AheadRow(p, res.0), AheadCol(p, res.0), Corner(g)))
    && (j < turns && res.1.Some? ==> res.1.value.row == AheadRow(p, res.0) && res.1.value.col == AheadCol(p, res.0))
  }

  /** The three ways a tick ends, one of which always applies. */
  lemma TurnsOutcome(g: seq<seq<Byte>>, p: TextPoint, d: Direction, turns: nat)
    requires Rectangular(g) && InCorner(p, Corner(g))
    ensures exists j | 0 <= j <= turns :: Outcome(g, p, d, turns, Turns(g, p, d, turns), j)
  {
    var j := TurnsWitness(g, p, d, turns);
  }

  lemma {:induction false} TurnsWitness(g: seq<seq<Byte>>, p: TextPoint, d: Direction, turns: nat) returns (j: nat)
    requires Rectangular(g) && InCorner(p, Corner(g))
    ensures Outcome(g, p, d, turns, Turns(g, p, d, turns), j)
    decreases turns, 1
  {
    if turns == 0 {
      j := 0;
    } else if Blocked(g, p, d) {
      j := BlockedWitness(g, p, d, turns);
    } else {
      TurnsStep(g, p, d, turns);
      j := 0;
    }
  }

  /** A blocked first attempt adds one turn in front of the outcome of the attempts after it. */
  lemma {:induction false} BlockedWitness(g: seq<seq<Byte>>, p: TextPoint, d: Direction, turns: nat) returns (j: nat)
    requires Rectangular(g) && InCorner(p, Corner(g)) && turns >= 1 && Blocked(g, p, d)
    ensures j >= 1 && Outcome(g, p, d, turns, Turns(g, p, d, turns), j)
    decreases turns, 0
  {
    var j' := TurnsWitness(g, p, RotateRight(d), turns - 1);
    j := j' + 1;
    TurnsStep(g, p, d, turns);
    OutcomeShift(g, p, d, turns, Turns(g, p, RotateRight(d), turns - 1), j');
  }

  /** An outcome after turning right once is, counted from the blocked direction `d`, one turn longer. */
  lemma OutcomeShift(g: seq<seq<Byte>>, p: TextPoint, d: Direction, turns: nat, res: (Direction, Option<TextPoint>), j: nat)
    requires Rectangular(g) && InCorner(p, Corner(g)) && turns >= 1 && Blocked(g, p, d)
    requires Outcome(g, p, RotateRight(d), turns - 1, res, j)
    ensures Outcome(g, p, d, turns, res, j + 1)
  {
    assert res.0 == RotateN(d, j + 1) by {
      RotateShift(d, j);
    }
    forall k | 0 <= k < j + 1 ensures Blocked(g, p, RotateN(d, k)) {
      if k > 0 {
        BlockedShift(g, p, d, k - 1);
      }
    }
  }

  /** Blocked after `k` more turns from `RotateRight(d)` is blocked after `k + 1` turns from `d`. */
  lemma BlockedShift(g: seq<seq<Byte>>, p: TextPoint, d: Direction, k: nat)
    requires Rectangular(g) && InCorner(p, Corner(g)) && Blocked(g, p, RotateN(RotateRight(d), k))
    ensures Blocked(g, p, RotateN(d, k + 1))
  {
    RotateShift(d, k);
  }

  lemma {:induction false} RotateShift(d: Direction, k: nat)
    ensures RotateN(RotateRight(d), k) == RotateN(d, k + 1)
  {
    if k > 0 {
      RotateShift(d, k - 1);
    }
  }

  /** The guard at `p` facing `d` can neither leave nor step: it is not on an open cell, or the cell ahead is not open. */
  predicate Blocked(g: seq<seq<Byte>>, p: TextPoint, d: Direction)
    requires Rectangular(g) && InCorner(p, Corner(g))
  {
    CornerInGrid(g, p);
    var r, c := AheadRow(p, d), AheadCol(p, d);
    g[p.row][p.col] != Dot || (InBox(r, c, Corner(g)) && (CornerInGrid(g, TextPoint(r, c)); g[r][c] != Dot))
  }

  /** A guard on an open cell moves only onto open cells, and four turns bring it back to its start. */
  lemma TickLandsOnOpen(g: seq<seq<Byte>>, p: TextPoint, d: Direction)
    requires Rectangular(g) && InCorner(p, Corner(g))
    ensures var (d', pos) := Turns(g, p, d, Attempts);
      (pos.Some? ==> InCorner(pos.value, Corner(g)) && (CornerInGrid(g, pos.value); pos.value == p || g[pos.value.row][pos.value.col] == Dot))
      && (pos == Some(p) ==> d' == d || !Blocked(g, p, d'))
  {
    var j := TurnsWitness(g, p, d, Attempts);
    RotateFour(d);
    var (d', pos) := Turns(g, p, d, Attempts);
    if pos.Some? && pos.value != p {
      var q := pos.value;
      CornerInGrid(g, q);
    }
  }

  /** The byte of an ASCII character. */
  function Code(c: char): Byte
  {
    if c as int < 256 then c as int else 0
  }

  function Row(s: string): (r: seq<Byte>)
    ensures |r| == |s| && forall i | 0 <= i < |s| :: r[i] == Code(s[i])
  {
    seq(|s|, i requires 0 <= i < |s| => Code(s[i]))
  }

  /** The example map of the tests. */
  function ExampleMap(): (g: seq<seq<Byte>>)
    ensures Rectangular(g) && Corner(g) == TextPoint(9, 9)
  {
    var g := [ Row("....#....."), Row(".........#"), Row(".........."), Row("..#......."), Row(".......#.."),
               Row(".........."), Row(".#..^....."), Row("........#."), Row("#........."), Row("......#...") ];
    assert forall r | r in g :: |r| == 10;
    g
  }

  /** The ray north from (3, 2) in a 9x9 box, as `explode_point_with_directions` lists it first. */
  lemma ExplodeWithDirectionsExample()
    ensures ExplodeWithDirections(TextPoint(3, 2), TextPoint(8, 8), 2)[0] == (N, [TextPoint(3, 2), TextPoint(2, 2)])
  {
    ShortRay(TextPoint(3, 2), TextPoint(8, 8), N);
    IndexInjective(ExplodeWithDirections(TextPoint(3, 2), TextPoint(8, 8), 2)[0].0, N);
  }

  /** `parse` of the example: the only `^` is at row 6, column 4. */
  lemma ParseExample()
    ensures FindChar(ExampleMap(), Caret) != [] && FindChar(ExampleMap(), Caret)[0] == TextPoint(6, 4)
  {
    var g := ExampleMap();
    var found := FindChar(g, Caret);
    assert InGrid(g, TextPoint(6, 4)) && g[6][4] == Caret;
    assert TextPoint(6, 4) in found;
    assert found[0] in found;
    CaretOnlyAt(found[0]);
  }

  lemma CaretOnlyAt(q: TextPoint)
    requires InGrid(ExampleMap(), q) && ExampleMap()[q.row][q.col] == Caret
    ensures q == TextPoint(6, 4)
  {
    var rows := ["....#.....", ".........#", "..........", "..#.......", ".......#..",
                 "..........", ".#..^.....", "........#.", "#.........", "......#..."];
    assert ExampleMap()[q.row] == Row(rows[q.row]);
    var s := rows[q.row];
    assert s[q.col] == '^' by {
      assert Code(s[q.col]) == Caret;
    }
    assert s[q.col] in s;
  }

  /** The map after `parse`: the guard's cell opened. */
  function ParsedExample(): (g: seq<seq<Byte>>)
    ensures Rectangular(g) && Corner(g) == TextPoint(9, 9)
  {
    var g := ReplaceChar(ExampleMap(), TextPoint(6, 4), Dot);
    assert forall i | 0 <= i < |g| :: g[i] == ExampleMap()[i] || i == 6;
    assert forall r | r in g :: |r| == 10;
    g
  }

  /** The six ticks of the test: five steps north, then a turn east at the obstacle in row 0. */
  lemma TickExamples()
    ensures TickGuard(ParsedExample(), (N, Some(TextPoint(6, 4)))) == (N, Some(TextPoint(5, 4)))
    ensures TickGuard(ParsedExample(), (N, Some(TextPoint(5, 4)))) == (N, Some(TextPoint(4, 4)))
    ensures TickGuard(ParsedExample(), (N, Some(TextPoint(4, 4)))) == (N, Some(TextPoint(3, 4)))
    ensures TickGuard(ParsedExample(), (N, Some(TextPoint(3, 4)))) == (N, Some(TextPoint(2, 4)))
    ensures TickGuard(ParsedExample(), (N, Some(TextPoint(2, 4)))) == (N, Some(TextPoint(1, 4)))
    ensures TickGuard(ParsedExample(), (N, Some(TextPoint(1, 4)))) == (E, Some(TextPoint(1, 5)))
  {
    var g := ParsedExample();
    assert g[6][4] == Dot && g[5][4] == Dot && g[4][4] == Dot && g[3][4] == Dot;
    assert g[2][4] == Dot && g[1][4] == Dot && g[0][4] != Dot && g[1][5] == Dot;
    TurnsStep(g, TextPoint(6, 4), N, 4);
    TurnsStep(g, TextPoint(5, 4), N, 4);
    TurnsStep(g, TextPoint(4, 4), N, 4);
    TurnsStep(g, TextPoint(3, 4), N, 4);
    TurnsStep(g, TextPoint(2, 4), N, 4);
    TurnsStep(g, TextPoint(1, 4), N, 4);
    TurnsStep(g, TextPoint(1, 4), E, 3);
  }

  /** The test run on the class: `parse`, then six calls of `tick`. */
  method TickExample() returns (guard: (Direction, Option<TextPoint>))
    ensures guard == (E, Some(TextPoint(1, 5)))
  {
    ParseExample();
    var m := new GuardMap(ExampleMap());
    assert m.guardMap == ParsedExample();
    TickExamples();
    var pos := m.Tick();
    assert m.guard == (N, Some(TextPoint(5, 4)));
    pos := m.Tick();
    pos := m.Tick();
    pos := m.Tick();
    pos := m.Tick();
    pos := m.Tick();
    guard := m.guard;
  }
}
