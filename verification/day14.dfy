/** src/day14.rs: robots moving on a wrapping grid, and the quadrant safety score. */
module Day14 {
  import opened Common

  datatype Point = Point(x: int, y: int)
  datatype Velocity = Velocity(dx: int, dy: int)
  datatype Robot = Robot(pos: Point, vel: Velocity)

  /**
   * `wrap`: a negative value is shifted up by `limit` once; otherwise Rust's `%` applies, which
   * panics for a zero `limit`.
   */
  function Wrap(value: int, limit: int): (r: int)
    requires value < 0 || limit != 0
    ensures 0 <= value && 0 < limit ==> r == value % limit
    ensures -limit <= value < 0 ==> 0 <= r < limit
  {
    if value < 0 then limit + value else TruncRem(value, limit)
  }

  /** A value no further than one `limit` below zero wraps into `0..limit`, congruent modulo `limit`. */
  lemma WrapRange(value: int, limit: int)
    requires limit > 0 && -limit <= value
    ensures 0 <= Wrap(value, limit) < limit
    ensures Wrap(value, limit) % limit == value % limit
  {
    if value < 0 {
      assert limit + value == value + 1 * limit;
      assert (value + limit) % limit == value % limit by {
        var q, r := (value + limit) / limit, (value + limit) % limit;
        assert value + limit == q * limit + r;
        assert 0 <= value + limit < limit;
        assert q == 0 && r == value + limit;
        assert value == -1 * limit + r;
        DivModUnique(value, limit, -1, r);
      }
    }
  }

  /** `Robot::tick`: move by the velocity, wrapping each coordinate at `corner + 1`. */
  function Tick(r: Robot, corner: Point): (r': Robot)
    requires r.pos.x + r.vel.dx < 0 || corner.x + 1 != 0
    requires r.pos.y + r.vel.dy < 0 || corner.y + 1 != 0
    ensures r'.vel == r.vel
  {
    Robot(Point(Wrap(r.pos.x + r.vel.dx, corner.x + 1), Wrap(r.pos.y + r.vel.dy, corner.y + 1)), r.vel)
  }

  /** The robot stands inside `[0, corner.x] x [0, corner.y]`. */
  predicate Inside(p: Point, corner: Point)
  {
    0 <= p.x <= corner.x && 0 <= p.y <= corner.y
  }

  /** A velocity of at most one grid size per axis. */
  predicate SlowEnough(v: Velocity, corner: Point)
  {
    -(corner.x + 1) <= v.dx <= corner.x + 1 && -(corner.y + 1) <= v.dy <= corner.y + 1
  }

  /** A tick keeps a slow enough robot inside the grid and moves it by its velocity modulo the grid size. */
  lemma TickInside(r: Robot, corner: Point)
    requires Inside(r.pos, corner) && SlowEnough(r.vel, corner)
    ensures Inside(Tick(r, corner).pos, corner)
    ensures Tick(r, corner).pos.x == (r.pos.x + r.vel.dx) % (corner.x + 1)
    ensures Tick(r, corner).pos.y == (r.pos.y + r.vel.dy) % (corner.y + 1)
  {
    var w, h := corner.x + 1, corner.y + 1;
    WrapRange(r.pos.x + r.vel.dx, w);
    WrapRange(r.pos.y + r.vel.dy, h);
    var x' := Tick(r, corner).pos.x;
    var y' := Tick(r, corner).pos.y;
    DivModUnique(x', w, 0, x');
    DivModUnique(y', h, 0, y');
  }

  /** `n` ticks. */
  function TickN(r: Robot, corner: Point, n: nat): (r': Robot)
    requires Inside(r.pos, corner) && SlowEnough(r.vel, corner)
    ensures Inside(r'.pos, corner) && r'.vel == r.vel
  {
    if n == 0 then r
    else
      var s := TickN(r, corner, n - 1);
      TickInside(s, corner);
      Tick(s, corner)
  }

  /** After `n` ticks a robot stands at its start plus `n` velocities, modulo the grid size. */
  lemma {:induction false} TickNClosedForm(r: Robot, corner: Point, n: nat)
    requires Inside(r.pos, corner) && SlowEnough(r.vel, corner)
    ensures TickN(r, corner, n).pos.x == (r.pos.x + n * r.vel.dx) % (corner.x + 1)
    ensures TickN(r, corner, n).pos.y == (r.pos.y + n * r.vel.dy) % (corner.y + 1)
  {
    if n == 0 {
      DivModUnique(r.pos.x, corner.x + 1, 0, r.pos.x);
      DivModUnique(r.pos.y, corner.y + 1, 0, r.pos.y);
    } else {
      TickNClosedForm(r, corner, n - 1);
      var s := TickN(r, corner, n - 1);
      TickInside(s, corner);
      AxisStep(r.pos.x, r.vel.dx, n, corner.x + 1, s.pos.x);
      AxisStep(r.pos.y, r.vel.dy, n, corner.y + 1, s.pos.y);
    }
  }

  /** One more step of `v` along an axis of size `m`. */
  lemma AxisStep(p: int, v: int, n: nat, m: int, prev: int)
    requires m > 0 && n >= 1 && prev == (p + (n - 1) * v) % m
    ensures (prev + v) % m == (p + n * v) % m
  {
    ModAdd(p + (n - 1) * v, v, m);
    assert p + (n - 1) * v + v == p + n * v;
  }

  /** `(a % m + b) % m == (a + b) % m`. */
  lemma ModAdd(a: int, b: int, m: int)
    requires m > 0
    ensures (a % m + b) % m == (a + b) % m
  {
    var q := a / m;
    assert a == q * m + a % m;
    var r := (a % m + b) % m;
    var q2 := (a % m + b) / m;
    assert a % m + b == q2 * m + r;
    assert a + b == (q + q2) * m + r;
    DivModUnique(a + b, m, q + q2, r);
  }

  /** Which quadrant around `center` the point lies strictly inside, if any (the `if` chain of `score`). */
  function Quadrant(p: Point, center: Point): Option<nat>
  {
    if p.x < center.x && p.y < center.y then Some(0)
    else if p.x < center.x && p.y > center.y then Some(1)
    else if p.x > center.x && p.y < center.y then Some(2)
    else if p.x > center.x && p.y > center.y then Some(3)
    else None
  }

  /** Reference: the number of robots strictly inside quadrant `k`. */
  function CountIn(rs: seq<Robot>, center: Point, k: nat): (n: nat)
    ensures n <= |rs|
  {
    if rs == [] then 0
    else CountIn(rs[..|rs| - 1], center, k) + if Quadrant(rs[|rs| - 1].pos, center) == Some(k) then 1 else 0
  }

  /** The centre lines of `score`: half the corner, with Rust's truncating division. */
  function Center(corner: Point): Point
  {
    Point(TruncDiv(corner.x, 2), TruncDiv(corner.y, 2))
  }

  /** The safety score: the product of the four quadrant counts. */
  function SafetyScore(rs: seq<Robot>, corner: Point): int
  {
    var c := Center(corner);
    CountIn(rs, c, 0) * CountIn(rs, c, 1) * CountIn(rs, c, 2) * CountIn(rs, c, 3)
  }

  /** `score`: tally each robot into at most one of four counters, then multiply them. */
  method Score(rs: seq<Robot>, corner: Point) returns (score: int)
    ensures score == SafetyScore(rs, corner)
  {
    var center := Center(corner);
    var q := new int[4](_ => 0);
    for i := 0 to |rs|
      invariant forall k | 0 <= k < 4 :: q[k] == CountIn(rs[..i], center, k)
    {
      var p := rs[i].pos;
      assert rs[..i + 1][..i] == rs[..i];
      if p.x < center.x && p.y < center.y {
        q[0] := q[0] + 1;
      } else if p.x < center.x && p.y > center.y {
        q[1] := q[1] + 1;
      } else if p.x > center.x && p.y < center.y {
        q[2] := q[2] + 1;
      } else if p.x > center.x && p.y > center.y {
        q[3] := q[3] + 1;
      }
    }
    assert rs[..|rs|] == rs;
    score := q[0] * q[1] * q[2] * q[3];
  }

  /** Each robot is counted at most once: the four counts add up to at most the number of robots. */
  lemma {:induction false} QuadrantsBounded(rs: seq<Robot>, center: Point)
    ensures CountIn(rs, center, 0) + CountIn(rs, center, 1) + CountIn(rs, center, 2) + CountIn(rs, center, 3) <= |rs|
  {
    if rs != [] {
      QuadrantsBounded(rs[..|rs| - 1], center);
    }
  }

  /**
   * `wrap` adds the limit only once, so a robot moving left by more than the room's width leaves it:
   * in a 3-wide room, from column 0 at speed -5, the robot lands on column -2.
   */
  lemma FastRobotEscapes()
    ensures Tick(Robot(Point(0, 0), Velocity(-5, 0)), Point(2, 2)).pos == Point(-2, 0)
    ensures !Inside(Tick(Robot(Point(0, 0), Velocity(-5, 0)), Point(2, 2)).pos, Point(2, 2))
  {
  }

  /** The robot of the unit test, ticked on an 11 x 7 grid: each step starts where the previous one ended. */
  lemma TickExample()
    ensures Tick(Robot(Point(2, 4), Velocity(2, -3)), Point(10, 6)) == Robot(Point(4, 1), Velocity(2, -3))
    ensures Tick(Robot(Point(4, 1), Velocity(2, -3)), Point(10, 6)) == Robot(Point(6, 5), Velocity(2, -3))
    ensures Tick(Robot(Point(6, 5), Velocity(2, -3)), Point(10, 6)) == Robot(Point(8, 2), Velocity(2, -3))
  {
    TickStep(2, 4, 4, 1);
    TickStep(4, 1, 6, 5);
    TickStep(6, 5, 8, 2);
  }

  /** The last two ticks of the same test: the robot reaches the corner, then wraps past the right edge. */
  lemma TickExampleWrap()
    ensures Tick(Robot(Point(8, 2), Velocity(2, -3)), Point(10, 6)) == Robot(Point(10, 6), Velocity(2, -3))
    ensures Tick(Robot(Point(10, 6), Velocity(2, -3)), Point(10, 6)) == Robot(Point(1, 3), Velocity(2, -3))
  {
    TickStep(8, 2, 10, 6);
    TickStep(10, 6, 1, 3);
  }

  lemma TickStep(x: int, y: int, x': int, y': int)
    requires 0 <= x <= 10 && 0 <= y <= 6 && 0 <= x' <= 10 && 0 <= y' <= 6
    requires (x + 2) % 11 == x' && (y - 3) % 7 == y'
    ensures Tick(Robot(Point(x, y), Velocity(2, -3)), Point(10, 6)) == Robot(Point(x', y'), Velocity(2, -3))
  {
    TickInside(Robot(Point(x, y), Velocity(2, -3)), Point(10, 6));
  }

}
