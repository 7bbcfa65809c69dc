/** src/day13.rs: the claw-machine equations solved by Cramer's rule in integers. */
module Day13 {
  import opened Common

  /** The two button presses `(a, b)` satisfy both equations. */
  predicate Solves(x1: int, x2: int, xp: int, y1: int, y2: int, yp: int, a: int, b: int)
  {
    a * x1 + b * x2 == xp && a * y1 + b * y2 == yp
  }

  /**
   * `solve`: `b` by Cramer's rule, then `a` from the first equation, both with Rust's truncating
   * division, kept only when they satisfy both equations. Rust panics on a zero divisor, hence the
   * precondition on the determinant and on `x1`.
   */
  function Solve(x1: int, x2: int, xp: int, y1: int, y2: int, yp: int): (r: Option<(int, int)>)
    requires x2 * y1 - y2 * x1 != 0 && x1 != 0
    ensures r.Some? ==> Solves(x1, x2, xp, y1, y2, yp, r.value.0, r.value.1)
  {
    var b := TruncDiv(xp * y1 - yp * x1, x2 * y1 - y2 * x1);
    var a := TruncDiv(xp - b * x2, x1);
    if a * x1 + b * x2 == xp && a * y1 + b * y2 == yp then Some((a, b)) else None
  }

  /**
   * Whenever an integer solution exists, `solve` returns it: the divisions are then exact, so the
   * rounding mode does not matter. With the results of `Solve`'s own contract, `solve` returns
   * `None` exactly when no integer solution exists.
   */
  lemma SolveComplete(x1: int, x2: int, xp: int, y1: int, y2: int, yp: int, a: int, b: int)
    requires x2 * y1 - y2 * x1 != 0 && x1 != 0
    requires Solves(x1, x2, xp, y1, y2, yp, a, b)
    ensures Solve(x1, x2, xp, y1, y2, yp) == Some((a, b))
  {
    var det := x2 * y1 - y2 * x1;
    var num := xp * y1 - yp * x1;
    CramerNumerator(x1, x2, xp, y1, y2, yp, a, b);
    TruncDivExact(num, det, b);
    assert xp - b * x2 == a * x1;
    TruncDivExact(xp - b * x2, x1, a);
  }

  /** Cramer's rule: eliminating `a` leaves `b` times the determinant. */
  lemma CramerNumerator(x1: int, x2: int, xp: int, y1: int, y2: int, yp: int, a: int, b: int)
    requires Solves(x1, x2, xp, y1, y2, yp, a, b)
    ensures xp * y1 - yp * x1 == b * (x2 * y1 - y2 * x1)
  {
    calc {
      xp * y1 - yp * x1;
      (a * x1 + b * x2) * y1 - (a * y1 + b * y2) * x1;
      a * x1 * y1 + b * x2 * y1 - a * y1 * x1 - b * y2 * x1;
      b * (x2 * y1 - y2 * x1);
    }
  }

  /** With a non-zero determinant the solution is unique. */
  lemma SolutionUnique(x1: int, x2: int, xp: int, y1: int, y2: int, yp: int, a: int, b: int, a': int, b': int)
    requires x2 * y1 - y2 * x1 != 0 && x1 != 0
    requires Solves(x1, x2, xp, y1, y2, yp, a, b) && Solves(x1, x2, xp, y1, y2, yp, a', b')
    ensures a == a' && b == b'
  {
    SolveComplete(x1, x2, xp, y1, y2, yp, a, b);
    SolveComplete(x1, x2, xp, y1, y2, yp, a', b');
  }

  /** `cost`: `ns` is `[x1, y1, x2, y2, xp, yp]`; a press of A costs 3 tokens, a press of B one. */
  function Cost(ns: seq<int>): (r: Option<int>)
    requires |ns| == 6 && ns[2] * ns[1] - ns[3] * ns[0] != 0 && ns[0] != 0
    ensures r.Some? <==> exists a, b :: Solves(ns[0], ns[2], ns[4], ns[1], ns[3], ns[5], a, b)
    ensures forall a, b | Solves(ns[0], ns[2], ns[4], ns[1], ns[3], ns[5], a, b) :: r == Some(3 * a + b)
  {
    var sol := Solve(ns[0], ns[2], ns[4], ns[1], ns[3], ns[5]);
    forall a, b | Solves(ns[0], ns[2], ns[4], ns[1], ns[3], ns[5], a, b)
      ensures sol == Some((a, b))
    {
      SolveComplete(ns[0], ns[2], ns[4], ns[1], ns[3], ns[5], a, b);
    }
    match sol
    case Some((a, b)) => Some(3 * a + b)
    case None => None
  }

  /** The four example machines. */
  lemma SolveExamples()
    ensures Solve(94, 22, 8400, 34, 67, 5400) == Some((80, 40))
    ensures Solve(17, 84, 7870, 86, 37, 6450) == Some((38, 86))
  {
    SolveComplete(94, 22, 8400, 34, 67, 5400, 80, 40);
    SolveComplete(17, 84, 7870, 86, 37, 6450, 38, 86);
  }

  lemma NoSolutionExample1()
    ensures Solve(26, 67, 12748, 66, 21, 12176) == None
  {
    var b := TruncDiv(12748 * 66 - 12176 * 26, 67 * 66 - 21 * 26);
    assert 12748 * 66 - 12176 * 26 == 524792 && 67 * 66 - 21 * 26 == 3876;
    assert b == 135 by { assert 524792 == 135 * 3876 + 1532; }
    var a := TruncDiv(12748 - b * 67, 26);
    assert a == 142 by { assert 12748 - 135 * 67 == 3703 == 142 * 26 + 11; }
  }

  lemma NoSolutionExample2()
    ensures Solve(69, 27, 18641, 23, 71, 10279) == None
  {
    var b := TruncDiv(18641 * 23 - 10279 * 69, 27 * 23 - 71 * 69);
    assert 18641 * 23 - 10279 * 69 == -280508 && 27 * 23 - 71 * 69 == -4278;
    assert b == 65 by { assert 280508 == 65 * 4278 + 2438; }
    var a := TruncDiv(18641 - b * 27, 69);
    assert a == 244 by { assert 18641 - 65 * 27 == 16886 == 244 * 69 + 50; }
  }

  lemma CostExamples()
    ensures Cost([94, 34, 22, 67, 8400, 5400]) == Some(280)
    ensures Cost([26, 66, 67, 21, 12748, 12176]) == None
    ensures Cost([17, 86, 84, 37, 7870, 6450]) == Some(200)
    ensures Cost([69, 23, 27, 71, 18641, 10279]) == None
  {
    SolveExamples();
    NoSolutionExample1();
    NoSolutionExample2();
  }
}
